/**
 * What one run of `Command.search` writes: header and match lines in the
 * result editor, the navigation map from rendered line to file location,
 * and the status label. The run is specified here as functions that follow
 * the loops of `search` checkpoint by checkpoint; a reference layout of the
 * rendered rows, built from the files alone, is what the lemmas compare
 * the run with.
 */
module Report {
  import opened Wrappers
  import opened Text
  import opened Paths
  import opened FileSystem
  import opened Scanner

  /** `MAX_RESULTS_LINES` */
  const MaxResultsLines: nat := 100

  /** A file the run visits: the path yielded by the walker, that path relative to the root, its hits. */
  datatype Target = Target(path: string, rel: string, hits: seq<Hit>)

  /** A value of `search_results`: the file to open and the zero-based line to go to. */
  datatype Location = Location(path: string, line: nat)

  /** A caret position in the result editor: zero-based column and line. */
  datatype Caret = Caret(column: nat, line: nat)

  /**
   * The state a run writes: the lines appended to the result editor, the
   * navigation map `search_results`, the status label and the editor's caret.
   */
  datatype View = View(memo: seq<string>, index: map<nat, Location>, status: string, caret: Caret)

  /** The two exceptions `search` raises to leave its loops. */
  datatype Signal = TerminateSearch | MaxLinesReached

  /** Where the loops of a run stand: still going (with the next checkpoint number) or left by an exception. */
  datatype Flow = Continue(view: View, ck: nat) | Raised(view: View, signal: Signal)

  datatype Outcome = Completed | Capped | Cancelled

  datatype Ending = Ending(view: View, outcome: Outcome)

  /**
   * `memo.get_line_count()`. The editor always holds one empty line after
   * the appended ones (it starts as a single empty line and
   * `set_text_line(-1, ..)` inserts before it), so the count is one more
   * than the number of appended lines.
   */
  function LineCount(memo: seq<string>): nat {
    |memo| + 1
  }

  /** `'<{}>:'.format(f_relative)` */
  function HeaderLine(rel: string): string {
    "<" + rel + ">:"
  }

  /** The prefix `' <{}>: '` of a match line, with the one-based line number. */
  function MatchPrefix(h: Hit): string {
    " <" + NatToString(h.line + 1) + ">: "
  }

  /** `' <{}>: {}'.format(line + 1, s.rstrip())` */
  function MatchLine(h: Hit): string {
    MatchPrefix(h) + RStrip(h.text)
  }

  function SearchingStatus(rel: string): string {
    "SEARCHING.. " + rel
  }

  const FinishedStatus: string := "FINISHED"

  /** `f'FINISHED, showing only {MAX_RESULTS_LINES} lines'` */
  function CappedStatus(): string {
    "FINISHED, showing only " + NatToString(MaxResultsLines) + " lines"
  }

  /** `memo.set_text_line(-1, line)` followed by `search_results[line_count - 1] = loc`. */
  function Append(v: View, line: string, loc: Location): View {
    v.(memo := v.memo + [line], index := v.index[LineCount(v.memo) - 1 := loc])
  }

  /** The files of a run, each with its relative path and what the scanner yields for it. */
  function Targets(files: seq<FileRef>, root: string, query: string): (ts: seq<Target>)
    ensures |ts| == |files|
    ensures forall k :: 0 <= k < |ts| ==> ts[k].path == files[k].Path()
  {
    seq(|files|, k requires 0 <= k < |files| =>
      Target(files[k].Path(), TrimStart(files[k].Path(), root), SearchFile(files[k], query)))
  }

  /**
   * Hit `j` of `t` written out, preceded by the file's header when it is the
   * first hit; the match line written at editor line 1 also gets the caret,
   * two columns after its first colon.
   */
  function WriteHit(t: Target, j: nat, v: View): View
    requires j < |t.hits|
  {
    var v1 := if j == 0 then Append(v, HeaderLine(t.rel), Location(t.path, 0)) else v;
    var s := MatchLine(t.hits[j]);
    var v2 := Append(v1, s, Location(t.path, t.hits[j].line));
    if LineCount(v1.memo) == 2 then v2.(caret := Caret(FirstIndexOf(s, ':') + 2, 1)) else v2
  }

  /**
   * The inner loop of `search` over the hits of file `i`, from hit `j` on;
   * `ck` numbers the cancellation checkpoint about to be passed and
   * `cancelAt` is the first checkpoint at which `terminate_search` is seen set.
   */
  function ScanHits(ts: seq<Target>, i: nat, j: nat, v: View, ck: nat, cancelAt: Option<nat>): Flow
    requires i < |ts| && j <= |ts[i].hits|
    decreases |ts[i].hits| - j
  {
    if j == |ts[i].hits| then Continue(v, ck)
    else if cancelAt == Some(ck) then Raised(v, TerminateSearch)
    else if LineCount(v.memo) >= MaxResultsLines then Raised(v, MaxLinesReached)
    else ScanHits(ts, i, j + 1, WriteHit(ts[i], j, v), ck + 1, cancelAt)
  }

  /** The outer loop of `search` over the files, from file `i` on. */
  function ScanFiles(ts: seq<Target>, i: nat, v: View, ck: nat, cancelAt: Option<nat>): Flow
    requires i <= |ts|
    decreases |ts| - i
  {
    if i == |ts| then Continue(v, ck)
    else if cancelAt == Some(ck) then Raised(v, TerminateSearch)
    else
      match ScanHits(ts, i, 0, v.(status := SearchingStatus(ts[i].rel)), ck + 1, cancelAt)
      case Raised(v', s) => Raised(v', s)
      case Continue(v', ck') => ScanFiles(ts, i + 1, v', ck', cancelAt)
  }

  /** The end of the `try` block and the two `except` handlers of `search`. */
  function Conclude(f: Flow): Ending {
    match f
    case Continue(v, _) => Ending(v.(status := FinishedStatus), Completed)
    case Raised(v, TerminateSearch) => Ending(v.(memo := [], index := map[], caret := Caret(0, 0)), Cancelled)
    case Raised(v, MaxLinesReached) => Ending(v.(status := CappedStatus()), Capped)
  }

  /**
   * A whole run, from the emptied editor and map, with `status` the label
   * shown before it. Emptying the editor puts its caret at the start.
   */
  function Run(ts: seq<Target>, cancelAt: Option<nat>, status: string): Ending {
    Conclude(ScanFiles(ts, 0, View([], map[], status, Caret(0, 0)), 0, cancelAt))
  }

  // ----- The reference layout of a run's output -----

  /** A rendered row: the header of file `file`, or hit `hit` of file `file`. */
  datatype Row = HeaderRow(file: nat) | MatchRow(file: nat, hit: nat)

  /** A row that can be rendered: its file exists, has its hit, and has a hit when it is a header. */
  predicate RowIn(ts: seq<Target>, r: Row) {
    && r.file < |ts|
    && (r.MatchRow? ==> r.hit < |ts[r.file].hits|)
    && (r.HeaderRow? ==> |ts[r.file].hits| > 0)
  }

  /** The rows a file with `m` hits takes: none, or its header and one per hit. */
  function BlockSize(m: nat): nat {
    if m == 0 then 0 else m + 1
  }

  /** The rows of files `i` onwards. */
  function Total(ts: seq<Target>, i: nat): nat
    requires i <= |ts|
    decreases |ts| - i
  {
    if i == |ts| then 0 else BlockSize(|ts[i].hits|) + Total(ts, i + 1)
  }

  /** The position of the first row of file `i`. */
  function Start(ts: seq<Target>, i: nat): nat
    requires i <= |ts|
  {
    if i == 0 then 0 else Start(ts, i - 1) + BlockSize(|ts[i - 1].hits|)
  }

  /** Row `p` of the rows of files `i` onwards: file by file, each header before the file's hits. */
  function RowAt(ts: seq<Target>, i: nat, p: nat): Row
    requires i <= |ts| && p < Total(ts, i)
    decreases |ts| - i
  {
    var b := BlockSize(|ts[i].hits|);
    if p >= b then RowAt(ts, i + 1, p - b)
    else if p == 0 then HeaderRow(i)
    else MatchRow(i, p - 1)
  }

  /** Every row a run could render, in the order it would render them. */
  function Layout(ts: seq<Target>): (rows: seq<Row>)
    ensures |rows| == Total(ts, 0)
  {
    seq(Total(ts, 0), p requires 0 <= p < Total(ts, 0) => RowAt(ts, 0, p))
  }

  function RenderRow(ts: seq<Target>, r: Row): string
    requires RowIn(ts, r)
  {
    match r
    case HeaderRow(f) => HeaderLine(ts[f].rel)
    case MatchRow(f, h) => MatchLine(ts[f].hits[h])
  }

  /** Where navigation from a row leads: a header to the top of its file, a hit to its line. */
  function LocateRow(ts: seq<Target>, r: Row): Location
    requires RowIn(ts, r)
  {
    match r
    case HeaderRow(f) => Location(ts[f].path, 0)
    case MatchRow(f, h) => Location(ts[f].path, ts[f].hits[h].line)
  }

  /** The first `n` rows of the layout as editor lines. */
  function Shown(ts: seq<Target>, n: nat): seq<string>
    requires n <= Total(ts, 0)
  {
    seq(n, k requires 0 <= k < n => RowAtIn(ts, 0, k); RenderRow(ts, RowAt(ts, 0, k)))
  }

  /** The navigation map for the first `n` rows of the layout. */
  function ShownIndex(ts: seq<Target>, n: nat): map<nat, Location>
    requires n <= Total(ts, 0)
  {
    map k: nat | k < n :: RowAtIn(ts, 0, k); LocateRow(ts, RowAt(ts, 0, k))
  }

  /**
   * The editor and the map hold exactly the first rows of the layout, line
   * for line, and the caret is where the first match line put it (at the
   * start while there is none).
   */
  predicate ShowsPrefix(ts: seq<Target>, v: View) {
    LinesPrefix(ts, v) && v.caret == FirstMatchCaret(v.memo)
  }

  predicate LinesPrefix(ts: seq<Target>, v: View) {
    && |v.memo| <= Total(ts, 0)
    && v.memo == Shown(ts, |v.memo|)
    && v.index == ShownIndex(ts, |v.memo|)
  }

  function FirstMatchCaret(memo: seq<string>): Caret {
    if |memo| >= 2 then Caret(FirstIndexOf(memo[1], ':') + 2, 1) else Caret(0, 0)
  }

  /** The first `n` rows do not end between a header and its first hit. */
  predicate EndsAtMatch(ts: seq<Target>, n: nat) {
    n == 0 || (n <= Total(ts, 0) && RowAt(ts, 0, n - 1).MatchRow?)
  }

  /** How far into the layout a run is when it is about to take hit `j` of file `i`. */
  function Pos(ts: seq<Target>, i: nat, j: nat): nat
    requires i <= |ts|
  {
    Start(ts, i) + BlockSize(j)
  }

  // ----- Lemmas about the layout -----

  lemma {:induction false} StartTotal(ts: seq<Target>, i: nat)
    requires i <= |ts|
    ensures Start(ts, i) + Total(ts, i) == Total(ts, 0)
  {
    if i > 0 {
      StartTotal(ts, i - 1);
    }
  }

  /** The rows of files `i` onwards are the layout from the start of file `i` on. */
  lemma {:induction false} RowAtShift(ts: seq<Target>, i: nat, q: nat)
    requires i <= |ts| && q < Total(ts, i)
    ensures Start(ts, i) + q < Total(ts, 0)
    ensures RowAt(ts, 0, Start(ts, i) + q) == RowAt(ts, i, q)
  {
    if i > 0 {
      var b := BlockSize(|ts[i - 1].hits|);
      RowAtShift(ts, i - 1, b + q);
    }
  }

  /** Every row of files `i` onwards can be rendered and belongs to one of them. */
  lemma {:induction false} RowAtIn(ts: seq<Target>, i: nat, p: nat)
    requires i <= |ts| && p < Total(ts, i)
    ensures RowIn(ts, RowAt(ts, i, p)) && RowAt(ts, i, p).file >= i
    decreases |ts| - i
  {
    var b := BlockSize(|ts[i].hits|);
    if p >= b {
      RowAtIn(ts, i + 1, p - b);
    }
  }

  /** Where the header and the hits of file `i` sit in the layout. */
  lemma LayoutAt(ts: seq<Target>, i: nat, j: nat)
    requires i < |ts| && j < |ts[i].hits|
    ensures Start(ts, i) + 1 + j < Total(ts, 0)
    ensures RowAt(ts, 0, Start(ts, i)) == HeaderRow(i)
    ensures RowAt(ts, 0, Start(ts, i) + 1 + j) == MatchRow(i, j)
  {
    RowAtShift(ts, i, 0);
    RowAtShift(ts, i, 1 + j);
  }

  /** The rows of whole files end with a hit, or are empty. */
  lemma {:induction false} StartEndsAtMatch(ts: seq<Target>, i: nat)
    requires i <= |ts|
    ensures EndsAtMatch(ts, Start(ts, i))
  {
    StartTotal(ts, i);
    if i > 0 {
      var m := |ts[i - 1].hits|;
      if m == 0 {
        StartEndsAtMatch(ts, i - 1);
      } else {
        LayoutAt(ts, i - 1, m - 1);
      }
    }
  }

  /** Between two hits the run has never stopped after a header. */
  lemma PosEndsAtMatch(ts: seq<Target>, i: nat, j: nat)
    requires i <= |ts| && (i < |ts| ==> j <= |ts[i].hits|) && (i == |ts| ==> j == 0)
    ensures Pos(ts, i, j) <= Total(ts, 0) && EndsAtMatch(ts, Pos(ts, i, j))
  {
    if j == 0 {
      StartTotal(ts, i);
      StartEndsAtMatch(ts, i);
    } else {
      LayoutAt(ts, i, j - 1);
    }
  }

  /**
   * The layout is strictly ordered by file and, within a file, header
   * first and hits in scanner order: so a header appears at most once per
   * file, before every hit of that file.
   */
  predicate RowBefore(a: Row, b: Row) {
    a.file < b.file || (a.file == b.file && Rank(a) < Rank(b))
  }

  function Rank(r: Row): nat {
    match r
    case HeaderRow(_) => 0
    case MatchRow(_, h) => h + 1
  }

  lemma {:induction false} RowAtOrdered(ts: seq<Target>, i: nat, p: nat, q: nat)
    requires i <= |ts| && p < q < Total(ts, i)
    ensures RowBefore(RowAt(ts, i, p), RowAt(ts, i, q))
    decreases |ts| - i
  {
    var b := BlockSize(|ts[i].hits|);
    if p >= b {
      RowAtOrdered(ts, i + 1, p - b, q - b);
    } else if q >= b {
      RowAtIn(ts, i + 1, q - b);
    }
  }

  lemma LayoutOrdered(ts: seq<Target>)
    ensures forall a, b :: 0 <= a < b < |Layout(ts)| ==> RowBefore(Layout(ts)[a], Layout(ts)[b])
  {
    var l := Layout(ts);
    forall a, b | 0 <= a < b < |l| ensures RowBefore(l[a], l[b]) {
      RowAtOrdered(ts, 0, a, b);
    }
  }

  /** In a strictly ordered sequence of rows, a row sits at only one index. */
  lemma OrderedUnique(l: seq<Row>, a: nat, b: nat)
    requires forall x, y :: 0 <= x < y < |l| ==> RowBefore(l[x], l[y])
    requires a < |l| && b < |l| && l[a] == l[b]
    ensures a == b
  {
  }

  /** A header is always followed by the first hit of its file. */
  lemma HeaderThenFirstHit(ts: seq<Target>, k: nat)
    requires k < |Layout(ts)| && Layout(ts)[k].HeaderRow?
    ensures k + 1 < |Layout(ts)| && Layout(ts)[k + 1] == MatchRow(Layout(ts)[k].file, 0)
  {
    var l := Layout(ts);
    RowAtIn(ts, 0, k);
    var f := l[k].file;
    LayoutAt(ts, f, 0);
    LayoutOrdered(ts);
    OrderedUnique(l, k, Start(ts, f));
  }

  /** The first hit of a file always comes right after the file's header. */
  lemma FirstHitAfterHeader(ts: seq<Target>, k: nat)
    requires k < |Layout(ts)| && Layout(ts)[k] == MatchRow(Layout(ts)[k].file, 0)
    ensures k > 0 && Layout(ts)[k - 1] == HeaderRow(Layout(ts)[k].file)
  {
    var l := Layout(ts);
    RowAtIn(ts, 0, k);
    var f := l[k].file;
    LayoutAt(ts, f, 0);
    LayoutOrdered(ts);
    OrderedUnique(l, k, Start(ts, f) + 1);
  }

  /** A file gets a header exactly when it has a hit. */
  lemma HeaderIffHits(ts: seq<Target>, f: nat)
    requires f < |ts|
    ensures HeaderRow(f) in Layout(ts) <==> |ts[f].hits| > 0
  {
    var l := Layout(ts);
    if |ts[f].hits| > 0 {
      LayoutAt(ts, f, 0);
      assert l[Start(ts, f)] == HeaderRow(f);
    } else if HeaderRow(f) in l {
      var k :| 0 <= k < |l| && l[k] == HeaderRow(f);
      RowAtIn(ts, 0, k);
    }
  }

  /** Every hit of every file has its row. */
  lemma EveryHitLaidOut(ts: seq<Target>, f: nat, h: nat)
    requires f < |ts| && h < |ts[f].hits|
    ensures MatchRow(f, h) in Layout(ts)
  {
    LayoutAt(ts, f, h);
    assert Layout(ts)[Start(ts, f) + 1 + h] == MatchRow(f, h);
  }

  // ----- Lemmas about the run -----

  lemma ShownSnoc(ts: seq<Target>, n: nat)
    requires n < Total(ts, 0)
    ensures RowIn(ts, RowAt(ts, 0, n))
    ensures Shown(ts, n + 1) == Shown(ts, n) + [RenderRow(ts, RowAt(ts, 0, n))]
  {
    RowAtIn(ts, 0, n);
    var a, b := Shown(ts, n + 1), Shown(ts, n) + [RenderRow(ts, RowAt(ts, 0, n))];
    assert forall k :: 0 <= k < n + 1 ==> a[k] == b[k];
  }

  lemma ShownIndexSnoc(ts: seq<Target>, n: nat)
    requires n < Total(ts, 0)
    ensures RowIn(ts, RowAt(ts, 0, n))
    ensures ShownIndex(ts, n + 1) == ShownIndex(ts, n)[n := LocateRow(ts, RowAt(ts, 0, n))]
  {
    RowAtIn(ts, 0, n);
    var a, b := ShownIndex(ts, n + 1), ShownIndex(ts, n)[n := LocateRow(ts, RowAt(ts, 0, n))];
    assert forall k :: k in a <==> k in b;
    assert forall k :: k in a ==> a[k] == b[k];
  }

  /** Appending the next row of the layout keeps the editor and the map a prefix of it. */
  lemma AppendNextRow(ts: seq<Target>, v: View)
    requires LinesPrefix(ts, v) && |v.memo| < Total(ts, 0)
    ensures var r := RowAt(ts, 0, |v.memo|);
      RowIn(ts, r) && LinesPrefix(ts, Append(v, RenderRow(ts, r), LocateRow(ts, r)))
  {
    var n := |v.memo|;
    ShownSnoc(ts, n);
    ShownIndexSnoc(ts, n);
  }

  /** Writing the next hit of file `i` appends exactly the next rows of the layout. */
  lemma WriteHitShows(ts: seq<Target>, i: nat, j: nat, v: View)
    requires i < |ts| && j < |ts[i].hits|
    requires ShowsPrefix(ts, v) && |v.memo| == Pos(ts, i, j)
    ensures ShowsPrefix(ts, WriteHit(ts[i], j, v))
    ensures |WriteHit(ts[i], j, v).memo| == Pos(ts, i, j + 1)
    ensures WriteHit(ts[i], j, v).status == v.status
  {
    WriteHitLines(ts, i, j, v);
    // The editor never holds just one line at a hit: its first line is a header.
    PosEndsAtMatch(ts, i, j);
    FirstRowHeader(ts, 0);
    assert |v.memo| != 1;
    WriteHitCaret(ts[i], j, v);
  }

  lemma WriteHitLines(ts: seq<Target>, i: nat, j: nat, v: View)
    requires i < |ts| && j < |ts[i].hits|
    requires LinesPrefix(ts, v) && |v.memo| == Pos(ts, i, j)
    ensures LinesPrefix(ts, WriteHit(ts[i], j, v))
    ensures |WriteHit(ts[i], j, v).memo| == Pos(ts, i, j + 1)
    ensures WriteHit(ts[i], j, v).status == v.status
  {
    var t := ts[i];
    var n := Start(ts, i);
    LayoutAt(ts, i, j);
    var v1 := if j == 0 then Append(v, HeaderLine(t.rel), Location(t.path, 0)) else v;
    if j == 0 {
      AppendNextRow(ts, v);
    }
    assert LinesPrefix(ts, v1) && |v1.memo| == n + 1 + j;
    AppendNextRow(ts, v1);
  }

  /** The caret follows the first match line, whatever else is written after it. */
  lemma WriteHitCaret(t: Target, j: nat, v: View)
    requires j < |t.hits|
    requires v.caret == FirstMatchCaret(v.memo)
    requires |v.memo| != 1 && (|v.memo| == 0 ==> j == 0)
    ensures WriteHit(t, j, v).caret == FirstMatchCaret(WriteHit(t, j, v).memo)
  {
    var w := WriteHit(t, j, v);
    if |v.memo| == 0 {
      assert w.memo[1] == MatchLine(t.hits[j]);
    } else {
      assert w.memo[1] == v.memo[1];
    }
  }

  /** The first row of the files from `i` on is a header. */
  lemma {:induction false} FirstRowHeader(ts: seq<Target>, i: nat)
    requires i <= |ts| && Total(ts, i) > 0
    ensures RowAt(ts, i, 0).HeaderRow?
    decreases |ts| - i
  {
    if BlockSize(|ts[i].hits|) == 0 {
      FirstRowHeader(ts, i + 1);
    }
  }

  /** What holds once the hits of file `i` are done with, whichever way the inner loop ended. */
  predicate HitsEnded(ts: seq<Target>, i: nat, status: string, cancelAt: Option<nat>, r: Flow)
    requires i < |ts|
  {
    && ShowsPrefix(ts, r.view)
    && |r.view.memo| <= MaxResultsLines
    && r.view.status == status
    && EndsAtMatch(ts, |r.view.memo|)
    && (r.Continue? ==> |r.view.memo| == Start(ts, i + 1))
    && (r.Raised? && r.signal == MaxLinesReached ==>
          LineCount(r.view.memo) >= MaxResultsLines && |r.view.memo| < Total(ts, 0))
    && (r.Raised? && r.signal == TerminateSearch ==> cancelAt.Some?)
  }

  lemma {:induction false} ScanHitsShape(ts: seq<Target>, i: nat, j: nat, v: View, ck: nat, cancelAt: Option<nat>)
    requires i < |ts| && j <= |ts[i].hits|
    requires ShowsPrefix(ts, v) && |v.memo| == Pos(ts, i, j) && |v.memo| <= MaxResultsLines
    ensures HitsEnded(ts, i, v.status, cancelAt, ScanHits(ts, i, j, v, ck, cancelAt))
    decreases |ts[i].hits| - j, 1
  {
    if j < |ts[i].hits| && cancelAt != Some(ck) && LineCount(v.memo) < MaxResultsLines {
      ScanHitsNext(ts, i, j, v, ck, cancelAt);
    } else {
      ScanHitsStops(ts, i, j, v, ck, cancelAt);
    }
  }

  /** One turn of the inner loop: the hit is written and the rest of the loop takes over. */
  lemma {:induction false} ScanHitsNext(ts: seq<Target>, i: nat, j: nat, v: View, ck: nat, cancelAt: Option<nat>)
    requires i < |ts| && j < |ts[i].hits|
    requires ShowsPrefix(ts, v) && |v.memo| == Pos(ts, i, j) && |v.memo| <= MaxResultsLines
    requires cancelAt != Some(ck) && LineCount(v.memo) < MaxResultsLines
    ensures HitsEnded(ts, i, v.status, cancelAt, ScanHits(ts, i, j, v, ck, cancelAt))
    decreases |ts[i].hits| - j, 0
  {
    var w := WriteHit(ts[i], j, v);
    WriteHitShows(ts, i, j, v);
    ScanHitsShape(ts, i, j + 1, w, ck + 1, cancelAt);
  }

  /** The inner loop's three exits: no hit left, cancellation seen, the cap reached. */
  lemma ScanHitsStops(ts: seq<Target>, i: nat, j: nat, v: View, ck: nat, cancelAt: Option<nat>)
    requires i < |ts| && j <= |ts[i].hits|
    requires ShowsPrefix(ts, v) && |v.memo| == Pos(ts, i, j) && |v.memo| <= MaxResultsLines
    requires j == |ts[i].hits| || cancelAt == Some(ck) || LineCount(v.memo) >= MaxResultsLines
    ensures HitsEnded(ts, i, v.status, cancelAt, ScanHits(ts, i, j, v, ck, cancelAt))
  {
    PosEndsAtMatch(ts, i, j);
    if j < |ts[i].hits| {
      LayoutAt(ts, i, j);
    }
  }

  lemma {:induction false} ScanFilesShape(ts: seq<Target>, i: nat, v: View, ck: nat, cancelAt: Option<nat>)
    requires i <= |ts|
    requires ShowsPrefix(ts, v) && |v.memo| == Start(ts, i) && |v.memo| <= MaxResultsLines
    ensures var r := ScanFiles(ts, i, v, ck, cancelAt);
      && ShowsPrefix(ts, r.view)
      && |r.view.memo| <= MaxResultsLines
      && EndsAtMatch(ts, |r.view.memo|)
      && (r.Continue? ==> |r.view.memo| == Total(ts, 0))
      && (r.Raised? && r.signal == MaxLinesReached ==>
            LineCount(r.view.memo) >= MaxResultsLines && |r.view.memo| < Total(ts, 0))
      && (r.Raised? && r.signal == TerminateSearch ==> cancelAt.Some?)
    decreases |ts| - i
  {
    PosEndsAtMatch(ts, i, 0);
    StartTotal(ts, i);
    if i < |ts| && cancelAt != Some(ck) {
      var v1 := v.(status := SearchingStatus(ts[i].rel));
      ScanHitsShape(ts, i, 0, v1, ck + 1, cancelAt);
      var f := ScanHits(ts, i, 0, v1, ck + 1, cancelAt);
      if f.Continue? {
        ScanFilesShape(ts, i + 1, f.view, f.ck, cancelAt);
      }
    }
  }

  /**
   * What every run leaves behind. The editor never holds more than
   * `MaxResultsLines` lines and the map has an entry for exactly its lines.
   * A cancelled run leaves both empty, with the caret at the start. Any other run shows the first rows of
   * the layout, line for line, and stops only after a hit: a complete run
   * shows all of them and says FINISHED; a capped run stops at a hit it
   * could not add without passing the cap, keeps what it has and says so.
   * Without a cancellation request a run is never cancelled, a layout
   * shorter than the cap is shown completely and a longer one is capped.
   */
  lemma RunSummary(ts: seq<Target>, cancelAt: Option<nat>, status: string)
    ensures var e := Run(ts, cancelAt, status);
      && |e.view.memo| <= MaxResultsLines
      && (forall k: nat :: k in e.view.index <==> k < |e.view.memo|)
      && (e.outcome == Cancelled ==> e.view.memo == [] && e.view.index == map[] && e.view.caret == Caret(0, 0))
      && (e.outcome != Cancelled ==> ShowsPrefix(ts, e.view) && EndsAtMatch(ts, |e.view.memo|))
      && (e.outcome == Completed ==> e.view.memo == Shown(ts, Total(ts, 0)) && e.view.status == FinishedStatus)
      && (e.outcome == Capped ==>
            MaxResultsLines - 1 <= |e.view.memo| < |Layout(ts)| && e.view.status == CappedStatus())
      && (cancelAt.None? ==> e.outcome != Cancelled)
      && (cancelAt.None? && |Layout(ts)| < MaxResultsLines ==> e.outcome == Completed)
      && (cancelAt.None? && |Layout(ts)| > MaxResultsLines ==> e.outcome == Capped)
  {
    var v := View([], map[], status, Caret(0, 0));
    assert ShowsPrefix(ts, v);
    ScanFilesShape(ts, 0, v, 0, cancelAt);
  }

  // ----- Cancellation -----

  /**
   * The checkpoints the hit loop looks at when nothing interrupts it, from
   * `ck` on: the number of the first checkpoint it does not reach.
   */
  function HitsPassed(ts: seq<Target>, i: nat, j: nat, v: View, ck: nat): (n: nat)
    requires i < |ts| && j <= |ts[i].hits|
    ensures ck <= n
    decreases |ts[i].hits| - j
  {
    if j == |ts[i].hits| then ck
    else if LineCount(v.memo) >= MaxResultsLines then ck + 1
    else HitsPassed(ts, i, j + 1, WriteHit(ts[i], j, v), ck + 1)
  }

  /** The same for the file loop, from file `i` on. */
  function FilesPassed(ts: seq<Target>, i: nat, v: View, ck: nat): nat
    requires i <= |ts|
    decreases |ts| - i
  {
    if i == |ts| then ck
    else
      var v1 := v.(status := SearchingStatus(ts[i].rel));
      match ScanHits(ts, i, 0, v1, ck + 1, None)
      case Raised(_, _) => HitsPassed(ts, i, 0, v1, ck + 1)
      case Continue(v', ck') => FilesPassed(ts, i + 1, v', ck')
  }

  /** The checkpoints a whole run over `ts` passes when nothing interrupts it. */
  function Checkpoints(ts: seq<Target>, status: string): nat {
    FilesPassed(ts, 0, View([], map[], status, Caret(0, 0)), 0)
  }

  /**
   * A request seen at a checkpoint the hit loop reaches stops it; one at a
   * checkpoint already passed or never reached changes nothing.
   */
  lemma {:induction false} HitsCancel(ts: seq<Target>, i: nat, j: nat, v: View, ck: nat, c: nat)
    requires i < |ts| && j <= |ts[i].hits|
    ensures var n := HitsPassed(ts, i, j, v, ck);
      var r0 := ScanHits(ts, i, j, v, ck, None);
      var r := ScanHits(ts, i, j, v, ck, Some(c));
      && (r0.Continue? ==> r0.ck == n)
      && (ck <= c < n ==> r.Raised? && r.signal == TerminateSearch)
      && (c < ck || n <= c ==> r == r0)
    decreases |ts[i].hits| - j
  {
    if j < |ts[i].hits| && LineCount(v.memo) < MaxResultsLines {
      HitsCancel(ts, i, j + 1, WriteHit(ts[i], j, v), ck + 1, c);
    }
  }

  /** The same for the file loop. */
  lemma {:induction false} FilesCancel(ts: seq<Target>, i: nat, v: View, ck: nat, c: nat)
    requires i <= |ts|
    ensures var n := FilesPassed(ts, i, v, ck);
      var r0 := ScanFiles(ts, i, v, ck, None);
      var r := ScanFiles(ts, i, v, ck, Some(c));
      && ck <= n
      && (ck <= c < n ==> r.Raised? && r.signal == TerminateSearch)
      && (c < ck || n <= c ==> r == r0)
    decreases |ts| - i
  {
    if i < |ts| {
      var v1 := v.(status := SearchingStatus(ts[i].rel));
      HitsCancel(ts, i, 0, v1, ck + 1, c);
      var h0 := ScanHits(ts, i, 0, v1, ck + 1, None);
      if h0.Continue? {
        FilesCancel(ts, i + 1, h0.view, h0.ck, c);
      }
    }
  }

  /**
   * Cancellation in both directions: a request seen at checkpoint `c`
   * cancels the run exactly when the uninterrupted run reaches `c`, and a
   * later one leaves the run as if nothing had been asked. A run with at
   * least one file reaches checkpoint 0, so a request from the start
   * always cancels it.
   */
  lemma RunCancellation(ts: seq<Target>, c: nat, status: string)
    ensures Run(ts, Some(c), status).outcome == Cancelled <==> c < Checkpoints(ts, status)
    ensures Checkpoints(ts, status) <= c ==> Run(ts, Some(c), status) == Run(ts, None, status)
    ensures ts != [] ==> 0 < Checkpoints(ts, status)
  {
    var v := View([], map[], status, Caret(0, 0));
    FilesCancel(ts, 0, v, 0, c);
    FilesCancel(ts, 0, v, 0, 0);
    RunSummary(ts, None, status);
  }

  /** The capped status reads "FINISHED, showing only 100 lines". */
  lemma CappedStatusText()
    ensures CappedStatus() == "FINISHED, showing only 100 lines"
  {
    assert NatToString(1) == "1";
    assert NatToString(10) == NatToString(1) + "0";
    assert NatToString(100) == NatToString(10) + "0";
  }

  // ----- What the lines say -----

  /**
   * A match line shows the one-based line number, which reads back as the
   * hit's line plus one, and the caret column `s.index(':') + 2` is where
   * the right-stripped text starts.
   */
  lemma MatchLineParts(h: Hit)
    ensures var digits := NatToString(h.line + 1);
      && MatchLine(h)[0] == ' '
      && MatchLine(h)[2..2 + |digits|] == digits
      && ParseNat(MatchLine(h)[2..2 + |digits|]) == h.line + 1
      && FirstIndexOf(MatchLine(h), ':') + 2 == |MatchPrefix(h)|
      && MatchLine(h)[|MatchPrefix(h)|..] == RStrip(h.text)
  {
    var digits := NatToString(h.line + 1);
    var line := MatchLine(h);
    var front := " <" + digits + ">";
    var back := ": " + RStrip(h.text);
    assert line == front + back;
    assert forall i :: 0 <= i < |front| ==> front[i] != ':' by {
      forall i | 0 <= i < |front| ensures front[i] != ':' {
        if 2 <= i < 2 + |digits| {
          assert front[i] == digits[i - 2];
        }
      }
    }
    FirstIndexOfAppend(front, back, ':');
    assert line[2..2 + |digits|] == digits;
    ParseNatToString(h.line + 1);
  }

  /** A header line starts with `<`, so it never reads as a match line, and it gives back the relative path. */
  lemma HeaderLineParts(rel: string)
    ensures HeaderLine(rel)[0] == '<'
    ensures HeaderLine(rel)[1..|HeaderLine(rel)| - 2] == rel
  {
    assert HeaderLine(rel) == "<" + rel + ">:";
  }

  /**
   * Once the editor holds a match line, line 1 is the first hit of the first
   * file with hits, and the caret stands on it where that hit's text starts.
   */
  lemma CaretAtFirstHit(ts: seq<Target>, v: View)
    requires ShowsPrefix(ts, v) && |v.memo| >= 2
    ensures RowIn(ts, RowAt(ts, 0, 0)) && RowAt(ts, 0, 0).HeaderRow? && RowAt(ts, 0, 1) == MatchRow(RowAt(ts, 0, 0).file, 0)
    ensures var h := ts[RowAt(ts, 0, 0).file].hits[0];
      && v.memo[1] == MatchLine(h)
      && v.caret == Caret(|MatchPrefix(h)|, 1)
      && v.memo[1][v.caret.column..] == RStrip(h.text)
  {
    FirstRowHeader(ts, 0);
    RowAtIn(ts, 0, 0);
    assert Layout(ts)[0] == RowAt(ts, 0, 0);
    HeaderThenFirstHit(ts, 0);
    assert Layout(ts)[1] == RowAt(ts, 0, 1);
    RowAtIn(ts, 0, 1);
    var h := ts[RowAt(ts, 0, 0).file].hits[0];
    assert v.memo[1] == RenderRow(ts, RowAt(ts, 0, 1));
    MatchLineParts(h);
  }

  /** `goto_file`'s lookup: nothing when the map is empty or has no entry for the caret line. */
  function Navigate(index: map<nat, Location>, caretLine: nat): (r: Option<Location>)
    ensures r.Some? <==> caretLine in index
    ensures r.Some? ==> r.value == index[caretLine]
  {
    if index == map[] || caretLine !in index then None else Some(index[caretLine])
  }

  /**
   * Navigating from a line of the editor opens the file that line belongs
   * to: a header goes to the top of the file, a match line to the line it
   * shows (zero-based, so the displayed number minus one); beyond the last
   * line there is nothing to open.
   */
  lemma NavigateShown(ts: seq<Target>, v: View, k: nat)
    requires LinesPrefix(ts, v)
    ensures k >= |v.memo| ==> Navigate(v.index, k) == None
    ensures k < |v.memo| ==>
      var r := RowAt(ts, 0, k);
      && RowIn(ts, r)
      && Navigate(v.index, k) == Some(LocateRow(ts, r))
      && (r.HeaderRow? ==> v.memo[k] == HeaderLine(ts[r.file].rel) && Navigate(v.index, k) == Some(Location(ts[r.file].path, 0)))
      && (r.MatchRow? ==>
            v.memo[k] == MatchLine(ts[r.file].hits[r.hit])
            && Navigate(v.index, k) == Some(Location(ts[r.file].path, ts[r.file].hits[r.hit].line)))
  {
    if k < |v.memo| {
      RowAtIn(ts, 0, k);
    }
  }

  // ----- The files a run visits -----

  /**
   * The targets of a run over the walker's files: every hit is a line of
   * its file that contains the query, and every relative path puts the
   * search root back in front to give the full path.
   */
  lemma TargetsFaithful(root: string, tree: Node, query: string)
    requires WellFormed(tree)
    ensures var files := Walk(root, tree);
      var ts := Targets(files, root, query);
      forall k :: 0 <= k < |ts| ==>
        && root + ts[k].rel == ts[k].path
        && ts[k].path == files[k].Path()
        && forall h :: 0 <= h < |ts[k].hits| ==>
             ts[k].hits[h].text == files[k].file.lines[ts[k].hits[h].line]
             && MatchesQuery(ts[k].hits[h].text, query)
  {
    var files := Walk(root, tree);
    WalkBelow(root, tree);
    forall k | 0 <= k < |files| ensures StartsWith(files[k].Path(), root) {
      assert files[k] in files;
    }
  }

}
