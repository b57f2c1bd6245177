/**
 * The directory tree the search runs over and `enumerate_files_in_dir`,
 * the recursive depth-first walker that yields every regular file below
 * the search root, pruning excluded and hidden directories.
 */
module FileSystem {
  import opened Wrappers
  import opened Text
  import opened Paths

  /**
   * What a directory listing shows at one name.
   * - File: a regular file (`os.path.isfile` holds): its size in bytes, its
   *   lines as already decoded text (each with its line terminator), and
   *   `failsAt`, the index of the line whose reading raises a decode or I/O
   *   error (`Some(0)` when the file cannot even be opened).
   * - Directory: a directory whose listing succeeds, in `os.listdir` order.
   * - Unlistable: anything else whose listing raises one of the errors the
   *   walker catches (permission denied, vanished meanwhile, not a
   *   directory); other listing errors are not modelled.
   */
  datatype Node =
    | File(name: string, size: nat, lines: seq<string>, failsAt: Option<nat>)
    | Directory(name: string, entries: seq<Node>)
    | Unlistable(name: string)

  /** A yielded file: the directory it was listed in and its entry. */
  datatype FileRef = FileRef(dir: string, file: Node) {
    /** The path the walker yields, `os.path.join(directory, file)`. */
    function Path(): string {
      Join(dir, file.name)
    }
  }

  /** Every name in the tree is a real directory-entry name: non-empty, no separator. */
  predicate WellFormed(node: Node)
    decreases node
  {
    && node.name != [] && NoSep(node.name)
    && (node.Directory? ==> forall e :: e in node.entries ==> WellFormed(e))
  }

  /**
   * `enumerate_files_in_dir(dir)`, where `node` is what sits at `dir`.
   * An excluded directory yields nothing; a node that cannot be listed
   * yields nothing (the listing error is swallowed).
   */
  function Walk(dir: string, node: Node): (r: seq<FileRef>)
    ensures Excluded(dir) || !node.Directory? ==> r == []
    ensures forall k :: 0 <= k < |r| ==> r[k].file.File? && !Excluded(r[k].dir)
    decreases node, 0
  {
    if Excluded(dir) then []
    else match node
      case Directory(_, entries) => WalkEntries(dir, entries)
      case _ => []
  }

  /** The loop over one listing of `dir`, entry by entry. */
  function WalkEntries(dir: string, entries: seq<Node>): (r: seq<FileRef>)
    requires !Excluded(dir)
    ensures forall k :: 0 <= k < |r| ==> r[k].file.File? && !Excluded(r[k].dir)
    decreases entries
  {
    if entries == [] then [] else Visit(dir, entries[0]) + WalkEntries(dir, entries[1..])
  }

  /**
   * What one entry of a listing of `dir` contributes: a regular file is
   * yielded; any other entry is descended into unless its basename is hidden.
   */
  function Visit(dir: string, e: Node): (r: seq<FileRef>)
    requires !Excluded(dir)
    ensures forall k :: 0 <= k < |r| ==> r[k].file.File? && !Excluded(r[k].dir)
    decreases e, 1
  {
    var path := Join(dir, e.name);
    if e.File? then [FileRef(dir, e)]
    else if IsHidden(path) then []
    else Walk(path, e)
  }

  /** Listing order is kept: the files of a listing are those of its entries, in order. */
  lemma {:induction false} WalkEntriesAppend(dir: string, a: seq<Node>, b: seq<Node>)
    requires !Excluded(dir)
    ensures WalkEntries(dir, a + b) == WalkEntries(dir, a) + WalkEntries(dir, b)
    decreases a
  {
    if a == [] {
      assert a + b == b;
    } else {
      assert (a + b)[1..] == a[1..] + b;
      WalkEntriesAppend(dir, a[1..], b);
    }
  }

  /** One entry's contribution to the listing it is part of. */
  lemma WalkEntriesSingle(dir: string, e: Node)
    requires !Excluded(dir)
    ensures WalkEntries(dir, [e]) == Visit(dir, e)
  {
    assert [e][1..] == [];
  }

  /** The files of a listing, entry by entry, in depth-first listing order. */
  lemma WalkEntriesAt(dir: string, entries: seq<Node>, k: nat)
    requires !Excluded(dir)
    requires k < |entries|
    ensures WalkEntries(dir, entries)
         == WalkEntries(dir, entries[..k]) + Visit(dir, entries[k]) + WalkEntries(dir, entries[k + 1..])
  {
    var front, e, back := entries[..k], entries[k], entries[k + 1..];
    var tail := [e] + back;
    assert entries == front + tail;
    WalkEntriesAppend(dir, front, tail);
    WalkEntriesAppend(dir, [e], back);
    WalkEntriesSingle(dir, e);
  }

  /** Every regular file listed in a searched directory is yielded, hidden or not. */
  lemma WalkYieldsListedFiles(dir: string, entries: seq<Node>, k: nat)
    requires !Excluded(dir)
    requires k < |entries| && entries[k].File?
    ensures FileRef(dir, entries[k]) in WalkEntries(dir, entries)
  {
    WalkEntriesAt(dir, entries, k);
  }

  /**
   * Hidden and excluded directories are never descended into: whatever lies
   * below such an entry, the walk of the listing is the same.
   */
  lemma PrunedSubtreeIgnored(dir: string, entries: seq<Node>, k: nat, other: Node)
    requires !Excluded(dir)
    requires k < |entries| && !entries[k].File?
    requires IsHidden(Join(dir, entries[k].name)) || Excluded(Join(dir, entries[k].name))
    requires !other.File? && other.name == entries[k].name
    ensures WalkEntries(dir, entries[k := other]) == WalkEntries(dir, entries)
  {
    var changed := entries[k := other];
    WalkEntriesAt(dir, entries, k);
    WalkEntriesAt(dir, changed, k);
    assert changed[..k] == entries[..k];
    assert changed[k + 1..] == entries[k + 1..];
  }

  /** Every yielded path lies below the directory the walk started from. */
  lemma {:induction false} WalkBelow(dir: string, node: Node)
    requires WellFormed(node)
    ensures forall f :: f in Walk(dir, node) ==> StartsWith(f.Path(), dir) && StartsWith(f.dir, dir)
    decreases node
  {
    if !Excluded(dir) && node.Directory? {
      WalkEntriesBelow(dir, node.entries);
    }
  }

  lemma {:induction false} WalkEntriesBelow(dir: string, entries: seq<Node>)
    requires !Excluded(dir)
    requires forall e :: e in entries ==> WellFormed(e)
    ensures forall f :: f in WalkEntries(dir, entries) ==> StartsWith(f.Path(), dir) && StartsWith(f.dir, dir)
    decreases entries
  {
    if entries != [] {
      var e := entries[0];
      var path := Join(dir, e.name);
      assert e in entries;
      JoinExtends(dir, e.name);
      WalkEntriesBelow(dir, entries[1..]);
      if !e.File? && !IsHidden(path) {
        WalkBelow(path, e);
        forall f | f in Walk(path, e)
          ensures StartsWith(f.Path(), dir) && StartsWith(f.dir, dir)
        {
          PrefixTransitive(f.Path(), path, dir);
          PrefixTransitive(f.dir, path, dir);
        }
      }
    }
  }

  lemma PrefixTransitive(a: string, b: string, c: string)
    requires StartsWith(a, b) && StartsWith(b, c)
    ensures StartsWith(a, c)
  {
    assert a[..|c|] == b[..|b|][..|c|];
  }

}
