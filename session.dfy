/**
 * `Command`: the dialog's state and its handlers. `Search` runs the two
 * loops of `search` against what the walker and the scanner yield and is
 * proved to leave exactly what the run specification `Report.Run` says.
 * A run is atomic here; what the user does while it is in progress is
 * given as an `Interruption`, delivered at the checkpoint where the running
 * loops next look at `terminate_search`, and handled by the same methods
 * the dialog calls.
 */
module Session {
  import opened Wrappers
  import opened Text
  import opened Paths
  import opened FileSystem
  import opened Scanner
  import opened Report

  /** The arguments of one call of `search`: the query and the path, as typed. */
  datatype Request = Request(query: string, path: string)

  /** What a search consults: the home directories `expanduser` knows and the tree at the search root. */
  datatype Env = Env(home: Option<string>, users: map<string, string>, tree: Node)

  /**
   * A handler call that stops a run in progress: closing the dialog,
   * Enter in the input with a field empty, or Enter with both filled, which
   * calls `search` again.
   */
  datatype Event = Closed | EmptyEnter | NewSearch(request: Request)

  /** An event and the checkpoint of the run it is seen at (or after the loops, when the run has fewer). */
  datatype Interruption = Interruption(at: nat, event: Event)

  datatype Key = Tab | Enter | OtherKey

  const ReadyStatus: string := "READY"

  const PleaseEnter: string := "Please enter something"

  function CancelAt(x: Option<Interruption>): (r: Option<nat>)
    ensures r.Some? <==> x.Some?
  {
    if x.Some? then Some(x.value.at) else None
  }

  /** The search an interruption asks for, to be started again once the run has ended. */
  function Deferred(x: Option<Interruption>): (r: seq<Request>)
    ensures |r| <= 1
    ensures r != [] <==> x.Some? && x.value.event.NewSearch?
  {
    if x.Some? && x.value.event.NewSearch? then [x.value.event.request] else []
  }

  predicate Closes(x: Option<Interruption>) {
    x.Some? && x.value.event == Closed
  }

  predicate Rejects(x: Option<Interruption>) {
    x.Some? && x.value.event == EmptyEnter
  }

  /** An Enter in the input: the user has moved the focus off the result editor to press it. */
  predicate EntersInput(x: Option<Interruption>) {
    x.Some? && !x.value.event.Closed?
  }

  /** The search root `search` makes of the typed path: `~` expanded, a separator at the end. */
  function Root(rawPath: string, env: Env): (r: string)
    ensures EndsWith(r, [Sep])
    ensures !StartsWith(rawPath, "~") ==> StartsWith(r, rawPath)
  {
    NormaliseRoot(ExpandUser(rawPath, env.home, env.users))
  }

  /** The run `search(query, rawPath)` makes, shown after the label `status`. */
  function RunFor(query: string, rawPath: string, env: Env, x: Option<Interruption>, status: string): Ending {
    var root := Root(rawPath, env);
    Run(Targets(Walk(root, env.tree), root, query), CancelAt(x), status)
  }

  class SearchSession {
    /** The lines of the result editor (`memo`), its read-only flag, caret and focus. */
    var memo: seq<string>
    var readOnly: bool
    var caret: Caret
    var memoFocused: bool
    /** The caption of the status label. */
    var status: string
    /** `search_results`: editor line to file location. */
    var results: map<nat, Location>
    /** `in_process` and `terminate_search`. */
    var inProcess: bool
    var terminate: bool
    /** The searches started by one-shot timers, oldest first. */
    var deferred: seq<Request>

    /** The editor stays within the cap, and the map is empty or covers exactly its lines. */
    ghost predicate Valid()
      reads this
    {
      && |memo| <= MaxResultsLines
      && (results == map[] || forall k: nat :: k in results <==> k < |memo|)
    }

    function Current(): View
      reads this
    {
      View(memo, results, status, caret)
    }

    /** `__init__` followed by `run`: an empty result editor and the READY label. */
    constructor ()
      ensures memo == [] && caret == Caret(0, 0) && !readOnly && !memoFocused && status == ReadyStatus
      ensures results == map[] && !inProcess && !terminate && deferred == []
      ensures Valid()
    {
      memo := [];
      readOnly := false;
      caret := Caret(0, 0);
      memoFocused := false;
      status := ReadyStatus;
      results := map[];
      inProcess := false;
      terminate := false;
      deferred := [];
    }

    /**
     * The state a finished run leaves: the editor as the run specification
     * says, the map cleared if the dialog was closed meanwhile, the label
     * as the run left it (or the prompt, when an empty Enter stopped it),
     * the interrupting search deferred, the focus in the input after an
     * Enter there, and the editor read-only again.
     */
    twostate predicate Ran(query: string, rawPath: string, env: Env, x: Option<Interruption>, before: seq<Request>)
      reads this
    {
      Concluded(RunFor(query, rawPath, env, x, old(status)), x, before)
    }

    /** The state after the handlers of a run that ended as `e`, interrupted by `x`. */
    predicate Concluded(e: Ending, x: Option<Interruption>, before: seq<Request>)
      reads this
    {
      && memo == e.view.memo
      && caret == e.view.caret
      && results == (if Closes(x) then map[] else e.view.index)
      && status == (if e.outcome == Cancelled && Rejects(x) then PleaseEnter else e.view.status)
      && deferred == before + Deferred(x)
      && terminate == x.Some?
      && memoFocused == !EntersInput(x)
      && readOnly && !inProcess
    }

    /** What a run in progress looks like right after an interruption stopped it at view `snap`. */
    predicate Interrupted(snap: View, x: Option<Interruption>, before: seq<Request>)
      reads this
    {
      && x.Some? && terminate
      && memo == snap.memo && caret == snap.caret
      && status == (if Rejects(x) then PleaseEnter else snap.status)
      && results == (if Closes(x) then map[] else snap.index)
      && deferred == before + Deferred(x)
      && memoFocused == !EntersInput(x)
      && inProcess && !readOnly
    }

    /** A run in progress that nothing has asked to stop yet. */
    predicate Running(before: seq<Request>)
      reads this
    {
      inProcess && !readOnly && memoFocused && !terminate && deferred == before
    }

    /**
     * The loops have stopped with `signal` (or ran out, at checkpoint `ck`)
     * exactly where the run specification `r` says, and the state shows it:
     * the view `r` carries, or the one `snap` seen before an interruption.
     */
    predicate Reached(r: Flow, signal: Option<Signal>, ck: nat, snap: View, x: Option<Interruption>, before: seq<Request>)
      reads this
    {
      match signal
      case None => Running(before) && r == Continue(Current(), ck)
      case Some(MaxLinesReached) => Running(before) && r == Raised(Current(), MaxLinesReached)
      case Some(TerminateSearch) => r == Raised(snap, TerminateSearch) && Interrupted(snap, x, before)
    }

    /**
     * `search(query, rawPath)`. Called while a run is in progress, it only
     * asks that run to stop and schedules itself again. Otherwise it runs
     * the search to the end and leaves what `Ran` describes.
     */
    method Search(query: string, rawPath: string, env: Env, x: Option<Interruption>)
      modifies this
      decreases if inProcess then 0 else 7
      ensures old(inProcess) ==>
        && terminate && deferred == old(deferred) + [Request(query, rawPath)]
        && memo == old(memo) && caret == old(caret) && results == old(results) && status == old(status)
        && readOnly == old(readOnly) && memoFocused == old(memoFocused) && inProcess
      ensures !old(inProcess) ==> Ran(query, rawPath, env, x, old(deferred)) && Valid()
    {
      if inProcess {
        terminate := true;
        deferred := deferred + [Request(query, rawPath)];
        return;
      }
      ghost var status0, before := status, deferred;
      var root := Begin(rawPath, env);
      assert Current() == View([], map[], status0, Caret(0, 0));
      var files := Walk(root, env.tree);
      ghost var ts := Targets(files, root, query);
      var signal, ck, snap := ScanFileList(ts, files, root, query, x, env, before);
      Finish(ts, status0, signal, ck, snap, x, env, before);
      assert RunFor(query, rawPath, env, x, status0) == Run(ts, CancelAt(x), status0);
    }

    /**
     * The start of a run: marked in progress, the editor writable, emptied
     * and focused, the map emptied, the root normalised, and
     * `terminate_search` cleared just before the loops.
     */
    method Begin(rawPath: string, env: Env) returns (root: string)
      modifies this
      ensures root == Root(rawPath, env)
      ensures memo == [] && results == map[] && status == old(status) && caret == Caret(0, 0)
      ensures Running(old(deferred))
    {
      inProcess := true;
      readOnly := false;
      memo := [];
      caret := Caret(0, 0);
      memoFocused := true;
      results := map[];
      var expanded := ExpandUser(rawPath, env.home, env.users);
      root := expanded;
      if !EndsWith(root, [Sep]) {
        root := root + [Sep];
      }
      assert root == NormaliseRoot(expanded);
      terminate := false;
    }

    /**
     * The end of `search`: an interruption no checkpoint saw arrives once
     * the loops are over; then the end of the `try` block or the `except` handler
     * for the signal raised, and the `finally` block.
     */
    method Finish(ghost ts: seq<Target>, ghost status0: string, signal: Option<Signal>, ghost ck: nat, ghost snap: View,
                  x: Option<Interruption>, env: Env, ghost before: seq<Request>)
      requires Reached(ScanFiles(ts, 0, View([], map[], status0, Caret(0, 0)), 0, CancelAt(x)), signal, ck, snap, x, before)
      modifies this
      decreases 2
      ensures Concluded(Run(ts, CancelAt(x), status0), x, before) && Valid()
    {
      if signal != Some(TerminateSearch) && x.Some? {
        Deliver(x, x.value.at, env);
      }
      match signal {
        case None =>
          status := FinishedStatus;
        case Some(TerminateSearch) =>
          results := map[];
          memo := [];
          caret := Caret(0, 0);
        case Some(MaxLinesReached) =>
          status := CappedStatus();
      }
      readOnly := true;
      inProcess := false;
      ConcludedValid(ts, CancelAt(x), status0, x, before);
    }

    /** A session a run has just left is within the cap, with a map that is empty or covers the editor. */
    lemma ConcludedValid(ts: seq<Target>, cancelAt: Option<nat>, status0: string, x: Option<Interruption>, before: seq<Request>)
      requires Concluded(Run(ts, cancelAt, status0), x, before)
      ensures Valid()
    {
      RunSummary(ts, cancelAt, status0);
    }

    /** The loop over the yielded files, each announced on the label and then scanned. */
    method ScanFileList(ghost ts: seq<Target>, files: seq<FileRef>, root: string, query: string,
                        x: Option<Interruption>, env: Env, ghost before: seq<Request>)
      returns (signal: Option<Signal>, ck: nat, ghost snap: View)
      requires ts == Targets(files, root, query)
      requires Running(before)
      modifies this
      decreases 6
      ensures Reached(ScanFiles(ts, 0, old(Current()), 0, CancelAt(x)), signal, ck, snap, x, before)
    {
      ghost var flow := ScanFiles(ts, 0, Current(), 0, CancelAt(x));
      snap := Current();
      signal := None;
      ck := 0;
      var i := 0;
      while i < |files| && signal.None?
        invariant i <= |files| == |ts|
        invariant signal.None? ==> Running(before) && ScanFiles(ts, i, Current(), ck, CancelAt(x)) == flow
        invariant signal.Some? ==> Reached(flow, signal, ck, snap, x, before)
        decreases |files| - i, if signal.None? then 1 else 0
      {
        signal, ck, snap := ScanNextFile(ts, files, i, root, query, ck, x, env, before, flow);
        if signal.None? {
          i := i + 1;
        }
      }
    }

    /**
     * One turn of the file loop: the checkpoint before file `i`, then, unless
     * the run was asked to stop, the label and the scan of that file.
     */
    method ScanNextFile(ghost ts: seq<Target>, files: seq<FileRef>, i: nat, root: string, query: string, ck0: nat,
                        x: Option<Interruption>, env: Env, ghost before: seq<Request>, ghost flow: Flow)
      returns (signal: Option<Signal>, ck: nat, ghost snap: View)
      requires ts == Targets(files, root, query) && i < |files|
      requires Running(before) && ScanFiles(ts, i, Current(), ck0, CancelAt(x)) == flow
      modifies this
      decreases 5
      ensures signal.None? ==> Running(before) && ScanFiles(ts, i + 1, Current(), ck, CancelAt(x)) == flow
      ensures signal.Some? ==> Reached(flow, signal, ck, snap, x, before)
    {
      var atFile := Current();
      Deliver(x, ck0, env);
      if terminate {
        snap, signal, ck := atFile, Some(TerminateSearch), ck0;
        return;
      }
      var f := files[i];
      var rel := TrimStart(f.Path(), root);
      status := SearchingStatus(rel);
      var hits := SearchFile(f, query);
      assert ts[i] == Target(f.Path(), rel, hits);
      ghost var inner := ScanHits(ts, i, 0, Current(), ck0 + 1, CancelAt(x));
      assert ScanFiles(ts, i, atFile, ck0, CancelAt(x)) ==
        match inner
        case Raised(v', s) => Raised(v', s)
        case Continue(v', ck') => ScanFiles(ts, i + 1, v', ck', CancelAt(x));
      signal, ck, snap := ScanFile(ts, i, f.Path(), rel, hits, ck0 + 1, x, env, before);
    }

    /** The loop over one file's hits: the checks before each match, then its lines. */
    method ScanFile(ghost ts: seq<Target>, ghost i: nat, path: string, rel: string, hits: seq<Hit>, ck0: nat,
                    x: Option<Interruption>, env: Env, ghost before: seq<Request>)
      returns (signal: Option<Signal>, ck: nat, ghost snap: View)
      requires i < |ts| && ts[i] == Target(path, rel, hits)
      requires Running(before)
      modifies this
      decreases 4
      ensures Reached(ScanHits(ts, i, 0, old(Current()), ck0, CancelAt(x)), signal, ck, snap, x, before)
    {
      ghost var inner := ScanHits(ts, i, 0, Current(), ck0, CancelAt(x));
      snap := Current();
      signal := None;
      ck := ck0;
      var j := 0;
      while j < |hits| && signal.None?
        invariant j <= |hits|
        invariant signal.None? ==> Running(before) && ScanHits(ts, i, j, Current(), ck, CancelAt(x)) == inner
        invariant signal.Some? ==> Reached(inner, signal, ck, snap, x, before)
        decreases |hits| - j, if signal.None? then 1 else 0
      {
        signal, ck, snap := ScanNextHit(ts, i, path, rel, hits, j, ck, x, env, before, inner);
        if signal.None? {
          j := j + 1;
        }
      }
    }

    /**
     * One turn of the hit loop: the checkpoint, the cap on the editor's line
     * count, and then hit `j` written out.
     */
    method ScanNextHit(ghost ts: seq<Target>, ghost i: nat, path: string, rel: string, hits: seq<Hit>, j: nat, ck0: nat,
                       x: Option<Interruption>, env: Env, ghost before: seq<Request>, ghost inner: Flow)
      returns (signal: Option<Signal>, ck: nat, ghost snap: View)
      requires i < |ts| && ts[i] == Target(path, rel, hits) && j < |hits|
      requires Running(before) && ScanHits(ts, i, j, Current(), ck0, CancelAt(x)) == inner
      modifies this
      decreases 3
      ensures signal.None? ==> Running(before) && ScanHits(ts, i, j + 1, Current(), ck, CancelAt(x)) == inner
      ensures signal.Some? ==> Reached(inner, signal, ck, snap, x, before)
    {
      var atHit := Current();
      snap, ck := atHit, ck0;
      Deliver(x, ck0, env);
      if terminate {
        signal := Some(TerminateSearch);
      } else if LineCount(memo) >= MaxResultsLines {
        signal := Some(MaxLinesReached);
      } else {
        WriteMatch(ts[i], j, path, rel, hits, j > 0);
        signal, ck := None, ck0 + 1;
      }
    }

    /**
     * The body of the hit loop once both checks have passed: the file's
     * header line before its first match, then the match line, each keyed
     * by its editor line; the caret goes to the text of the first match.
     */
    method WriteMatch(ghost t: Target, j: nat, path: string, rel: string, hits: seq<Hit>, inserted: bool)
      requires t == Target(path, rel, hits) && j < |hits| && (inserted <==> j > 0)
      modifies this
      ensures Current() == WriteHit(t, j, old(Current()))
      ensures readOnly == old(readOnly) && memoFocused == old(memoFocused) && inProcess == old(inProcess)
      ensures terminate == old(terminate) && deferred == old(deferred)
    {
      var lineCount := LineCount(memo);
      if !inserted {
        memo := memo + [HeaderLine(rel)];
        results := results[lineCount - 1 := Location(path, 0)];
        lineCount := lineCount + 1;
      }
      var s := MatchLine(hits[j]);
      memo := memo + [s];
      results := results[lineCount - 1 := Location(path, hits[j].line)];
      if lineCount == 2 {
        caret := Caret(FirstIndexOf(s, ':') + 2, 1);
      }
    }

    /**
     * The handler the dialog runs for an interruption seen at checkpoint `ck`.
     * Enter reaches `search` or the prompt only from the input, so the user
     * has first moved the focus off the result editor (Tab or a click).
     */
    method Deliver(x: Option<Interruption>, ck: nat, env: Env)
      requires inProcess
      modifies this
      decreases 1
      ensures x.Some? && x.value.at == ck ==>
        && terminate && deferred == old(deferred) + Deferred(x)
        && status == (if Rejects(x) then PleaseEnter else old(status))
        && results == (if Closes(x) then map[] else old(results))
      ensures !(x.Some? && x.value.at == ck) ==>
        terminate == old(terminate) && deferred == old(deferred) && status == old(status) && results == old(results)
      ensures memo == old(memo) && caret == old(caret) && readOnly == old(readOnly) && inProcess == old(inProcess)
      ensures memoFocused == (if x.Some? && x.value.at == ck && EntersInput(x) then false else old(memoFocused))
    {
      if x.Some? && x.value.at == ck {
        match x.value.event {
          case Closed => OnDialogClose();
          case EmptyEnter =>
            memoFocused := false;
            RejectEmpty();
          case NewSearch(r) =>
            memoFocused := false;
            Search(r.query, r.path, env, None);
        }
      }
    }

    /** `on_dlg_close`: the map is cleared and a run in progress is asked to stop. */
    method OnDialogClose()
      modifies this
      ensures results == map[] && terminate == (old(terminate) || old(inProcess))
      ensures memo == old(memo) && caret == old(caret) && status == old(status) && deferred == old(deferred)
      ensures readOnly == old(readOnly) && memoFocused == old(memoFocused) && inProcess == old(inProcess)
      ensures old(Valid()) ==> Valid()
    {
      results := map[];
      if inProcess {
        terminate := true;
      }
    }

    /** The `else` branch of Enter in the input: the prompt is shown and any run is asked to stop. */
    method RejectEmpty()
      modifies this
      ensures status == PleaseEnter && terminate
      ensures memo == old(memo) && caret == old(caret) && results == old(results) && deferred == old(deferred)
      ensures readOnly == old(readOnly) && memoFocused == old(memoFocused) && inProcess == old(inProcess)
    {
      status := PleaseEnter;
      terminate := true;
    }

    /**
     * `goto_file`: the location stored for the caret's line, or nothing when
     * the map is empty or has no entry for that line. Opening the file and
     * moving its caret happen in the main editor, outside this model.
     */
    method GotoFile() returns (target: Option<Location>)
      ensures target == Navigate(results, caret.line)
      ensures target.Some? ==> caret.line < |memo| || !Valid()
    {
      if results != map[] && caret.line in results {
        target := Some(results[caret.line]);
      } else {
        target := None;
      }
    }

    /** `on_click_dbl`: the editor has moved the caret to the clicked line; then `goto_file`. */
    method OnDoubleClick() returns (target: Option<Location>)
      ensures target == Navigate(results, caret.line)
    {
      target := GotoFile();
    }

    /** The editor's own caret movement (arrow keys, clicks). */
    method PlaceCaret(c: Caret)
      modifies this
      ensures caret == c
      ensures memo == old(memo) && results == old(results) && status == old(status) && deferred == old(deferred)
      ensures readOnly == old(readOnly) && memoFocused == old(memoFocused)
      ensures inProcess == old(inProcess) && terminate == old(terminate)
    {
      caret := c;
    }

    /**
     * `on_dlg_key_down` with the two fields holding `inputText` and
     * `pathText`. `consumed` is the handler returning `False`; `target` is
     * what `goto_file` looked up, if it ran.
     */
    method OnKeyDown(key: Key, inputText: string, pathText: string, env: Env, x: Option<Interruption>)
      returns (consumed: bool, target: Option<Location>)
      modifies this
      ensures key == OtherKey ==> !consumed && target == None && unchanged(this)
      ensures key == Tab ==>
        && consumed == old(memoFocused) && !memoFocused && target == None
        && memo == old(memo) && caret == old(caret) && results == old(results) && status == old(status)
        && deferred == old(deferred) && readOnly == old(readOnly)
        && inProcess == old(inProcess) && terminate == old(terminate)
      ensures key == Enter ==> consumed
      ensures key == Enter && old(memoFocused) ==>
        target == Navigate(old(results), old(caret).line) && unchanged(this)
      ensures key == Enter && !old(memoFocused) && (Strip(inputText) == [] || Strip(pathText) == []) ==>
        && target == None && status == PleaseEnter && terminate
        && memo == old(memo) && caret == old(caret) && results == old(results) && deferred == old(deferred)
        && readOnly == old(readOnly) && memoFocused == old(memoFocused) && inProcess == old(inProcess)
      ensures key == Enter && !old(memoFocused) && Strip(inputText) != [] && Strip(pathText) != [] ==>
        && target == None
        && (old(inProcess) ==> terminate && deferred == old(deferred) + [Request(Strip(inputText), Strip(pathText))])
        && (!old(inProcess) ==> Ran(Strip(inputText), Strip(pathText), env, x, old(deferred)) && Valid())
    {
      consumed, target := false, None;
      match key {
        case OtherKey =>
        case Tab =>
          if memoFocused {
            memoFocused := false;
            consumed := true;
          }
        case Enter =>
          if !memoFocused {
            var query := Strip(inputText);
            var path := Strip(pathText);
            if query != [] && path != [] {
              Search(query, path, env, x);
            } else {
              RejectEmpty();
            }
          } else {
            target := GotoFile();
          }
          consumed := true;
      }
    }

    /** A one-shot timer started by a deferred `search` fires: the oldest deferred search runs. */
    method OnTimer(env: Env, x: Option<Interruption>)
      modifies this
      ensures old(deferred) == [] ==> unchanged(this)
      ensures old(deferred) != [] && !old(inProcess) ==>
        Ran(old(deferred)[0].query, old(deferred)[0].path, env, x, old(deferred)[1..]) && Valid()
      ensures old(deferred) != [] && old(inProcess) ==>
        terminate && deferred == old(deferred)[1..] + [old(deferred)[0]]
    {
      if deferred != [] {
        var r := deferred[0];
        deferred := deferred[1..];
        Search(r.query, r.path, env, x);
      }
    }

    /** `on_exit`: a run in progress is asked to stop. */
    method OnExit()
      modifies this
      ensures terminate
      ensures memo == old(memo) && caret == old(caret) && results == old(results) && status == old(status)
      ensures deferred == old(deferred) && readOnly == old(readOnly) && memoFocused == old(memoFocused)
      ensures inProcess == old(inProcess)
    {
      terminate := true;
    }
  }

}
