/**
 * POSIX path helpers used by the search engine: `trim_start`, the
 * basename rule of `is_hidden`, `os.path.join`, `str.split(os.sep)`,
 * `os.path.expanduser` and the trailing-separator normalisation of the
 * search root.
 */
module Paths {
  import opened Wrappers
  import opened Text

  /** `os.sep` on the platforms this model covers. */
  const Sep: char := '/'

  /** Directory names that are never searched (`DO_NOT_SEARCH`). */
  const DoNotSearch: seq<string> := [".git", ".cudatext", "__pycache__", "__trash"]

  predicate NoSep(s: string) {
    forall i :: 0 <= i < |s| ==> s[i] != Sep
  }

  /** `trim_start(string, substring)`: strip `prefix` from the front of `s` if it is there. */
  function TrimStart(s: string, prefix: string): (r: string)
    ensures StartsWith(s, prefix) ==> prefix + r == s
    ensures !StartsWith(s, prefix) ==> r == s
    ensures |r| <= |s|
  {
    if StartsWith(s, prefix) then s[|prefix|..] else s
  }

  /** `os.path.basename`: what follows the last separator. */
  function BaseName(path: string): (r: string)
    ensures NoSep(r)
    ensures EndsWith(path, r)
    ensures |r| < |path| ==> path[|path| - |r| - 1] == Sep
    decreases |path|
  {
    if path == [] then []
    else if path[|path| - 1] == Sep then []
    else BaseName(path[..|path| - 1]) + [path[|path| - 1]]
  }

  /** The basename rule of `is_hidden`: the last path component starts with a dot. */
  predicate IsHidden(path: string) {
    StartsWith(BaseName(path), ".")
  }

  /** `os.path.join(dir, name)` for two components. */
  function Join(dir: string, name: string): string {
    if StartsWith(name, [Sep]) then name
    else if dir == [] || EndsWith(dir, [Sep]) then dir + name
    else dir + [Sep] + name
  }

  /** The basename of a joined path is the component that was joined. */
  lemma BaseNameOfJoin(dir: string, name: string)
    requires NoSep(name)
    ensures BaseName(Join(dir, name)) == name
  {
    var x := if dir == [] || EndsWith(dir, [Sep]) then dir else dir + [Sep];
    assert !StartsWith(name, [Sep]) by {
      if |name| > 0 { assert name[0] != Sep; }
    }
    assert Join(dir, name) == x + name;
    BaseNameAfterSep(x, name);
  }

  lemma {:induction false} BaseNameAfterSep(x: string, name: string)
    requires x == [] || x[|x| - 1] == Sep
    requires NoSep(name)
    ensures BaseName(x + name) == name
    decreases |name|
  {
    if name == [] {
      assert x + name == x;
    } else {
      var init := name[..|name| - 1];
      BaseNameAfterSep(x, init);
      assert (x + name)[..|x + name| - 1] == x + init;
    }
  }

  /** A joined path starts with the directory it was joined to. */
  lemma JoinExtends(dir: string, name: string)
    requires NoSep(name)
    ensures StartsWith(Join(dir, name), dir)
    ensures |Join(dir, name)| > |dir| || name == []
  {
    if name != [] {
      assert name[0] != Sep;
    }
  }

  /** `s.split(os.sep)`: the pieces between separators, empty pieces included. */
  function Split(s: string): (parts: seq<string>)
    ensures |parts| >= 1
    ensures forall k :: 0 <= k < |parts| ==> NoSep(parts[k])
    decreases |s|
  {
    var k := FirstIndexOf(s, Sep);
    if k == |s| then [s] else [s[..k]] + Split(s[k + 1..])
  }

  /** `os.sep.join(parts)` */
  function JoinSegments(parts: seq<string>): string
    requires |parts| >= 1
    decreases |parts|
  {
    if |parts| == 1 then parts[0] else parts[0] + [Sep] + JoinSegments(parts[1..])
  }

  /** Splitting at the separators and joining the pieces again gives back the path. */
  lemma {:induction false} SplitRoundTrip(s: string)
    ensures JoinSegments(Split(s)) == s
    decreases |s|
  {
    var k := FirstIndexOf(s, Sep);
    if k < |s| {
      var head, rest := s[..k], s[k + 1..];
      var tail := Split(rest);
      SplitRoundTrip(rest);
      assert Split(s) == [head] + tail;
      JoinSegmentsCons(head, tail);
      assert s == head + [Sep] + rest;
    }
  }

  lemma JoinSegmentsCons(a: string, parts: seq<string>)
    requires |parts| >= 1
    ensures JoinSegments([a] + parts) == a + [Sep] + JoinSegments(parts)
  {
    assert ([a] + parts)[1..] == parts;
  }

  /** The first separator of a piece followed by a separator is that separator. */
  lemma {:induction false} FirstSepAfter(a: string, b: string)
    requires NoSep(a)
    ensures FirstIndexOf(a, Sep) == |a|
    ensures FirstIndexOf(a + [Sep] + b, Sep) == |a|
    decreases |a|
  {
    if a != [] {
      FirstSepAfter(a[1..], b);
      assert (a + [Sep] + b)[1..] == a[1..] + [Sep] + b;
    }
  }

  /** Split is the only way to cut a path into separator-free pieces that join back to it. */
  lemma {:induction false} SplitUnique(s: string, parts: seq<string>)
    requires |parts| >= 1
    requires forall k :: 0 <= k < |parts| ==> NoSep(parts[k])
    requires JoinSegments(parts) == s
    ensures parts == Split(s)
    decreases |s|
  {
    var a := parts[0];
    if |parts| == 1 {
      FirstSepAfter(a, []);
    } else {
      var rest := JoinSegments(parts[1..]);
      FirstSepAfter(a, rest);
      assert s == a + [Sep] + rest;
      assert s[..|a|] == a;
      assert s[|a| + 1..] == rest;
      SplitUnique(rest, parts[1..]);
      assert parts == [a] + parts[1..];
    }
  }

  /** The exclusion test of `enumerate_files_in_dir`: some `DO_NOT_SEARCH` name is a path segment. */
  predicate Excluded(dir: string) {
    exists d :: d in DoNotSearch && d in Split(dir)
  }

  /** The search root with a separator at its end, as `search` forces it to be. */
  function NormaliseRoot(path: string): (r: string)
    ensures EndsWith(r, [Sep])
    ensures StartsWith(r, path)
    ensures |r| <= |path| + 1
    ensures EndsWith(path, [Sep]) ==> r == path
  {
    if EndsWith(path, [Sep]) then path else path + [Sep]
  }

  /** Normalising an already normalised root changes nothing. */
  lemma NormaliseRootIdempotent(path: string)
    ensures NormaliseRoot(NormaliseRoot(path)) == NormaliseRoot(path)
  {
  }

  /**
   * `os.path.expanduser` on POSIX. `home` is what the process knows as its own
   * home directory (the HOME variable, else the account database), `users`
   * maps account names to their home directories.
   */
  function ExpandUser(path: string, home: Option<string>, users: map<string, string>): (r: string)
    ensures !StartsWith(path, "~") ==> r == path
    ensures StartsWith(path, "~") && HomeOf(path, home, users).None? ==> r == path
    ensures StartsWith(path, "~") && HomeOf(path, home, users).Some? ==>
      var expanded := DropTrailing(HomeOf(path, home, users).value, IsSep) + path[UserEnd(path)..];
      r == if expanded == [] then [Sep] else expanded
    ensures path != [] ==> r != []
    ensures StartsWith(path, "~") && r != path ==> EndsWith(r, path[UserEnd(path)..])
  {
    if !StartsWith(path, "~") then path
    else
      match HomeOf(path, home, users)
      case None => path
      case Some(h) =>
        var expanded := DropTrailing(h, IsSep) + path[UserEnd(path)..];
        if expanded == [] then [Sep] else expanded
  }

  predicate IsSep(c: char) {
    c == Sep
  }

  /**
   * The home directory named by the `~` or `~user` that starts `path`: the
   * process's own for a bare tilde, the account's for a known user, and
   * none otherwise.
   */
  function HomeOf(path: string, home: Option<string>, users: map<string, string>): (h: Option<string>)
    requires StartsWith(path, "~")
    ensures UserEnd(path) == 1 ==> h == home
    ensures UserEnd(path) > 1 ==> (h.Some? <==> path[1..UserEnd(path)] in users)
    ensures UserEnd(path) > 1 && h.Some? ==> h.value == users[path[1..UserEnd(path)]]
  {
    var user := path[1..UserEnd(path)];
    if user == [] then home
    else if user in users then Some(users[user])
    else None
  }

  /** `path.find(os.sep, 1)`, or `len(path)` when there is no separator after the tilde. */
  function UserEnd(path: string): (i: nat)
    requires |path| >= 1
    ensures 1 <= i <= |path|
    ensures i < |path| ==> path[i] == Sep
    ensures forall k :: 1 <= k < i ==> path[k] != Sep
  {
    1 + FirstIndexOf(path[1..], Sep)
  }

}
