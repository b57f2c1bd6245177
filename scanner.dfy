/**
 * `search_file_for_string`: the size and hidden gates, then every line of
 * the file that contains the query, compared case-insensitively, as
 * (zero-based line index, line as read).
 */
module Scanner {
  import opened Wrappers
  import opened Text
  import opened Paths
  import opened FileSystem

  /** `MAX_FILE_SIZE_MB` */
  const MaxFileSizeMb: nat := 5

  /** The size gate in bytes: a file is read only when it is smaller than this. */
  const MaxFileSize: nat := MaxFileSizeMb * 1024 * 1024

  /** One yielded pair `(line, s)`. */
  datatype Hit = Hit(line: nat, text: string)

  /** `search_string.lower() in s.lower()` */
  predicate MatchesQuery(line: string, query: string) {
    Contains(Lower(line), Lower(query))
  }

  /** The lines a scan reads before a read error (if any) ends it. */
  function ReadableLines(f: Node): (lines: seq<string>)
    requires f.File?
    ensures |lines| <= |f.lines| && lines == f.lines[..|lines|]
    ensures f.failsAt.Some? && f.failsAt.value < |f.lines| ==> |lines| == f.failsAt.value
    ensures f.failsAt.Some? && f.failsAt.value >= |f.lines| ==> lines == f.lines
    ensures f.failsAt.None? ==> lines == f.lines
  {
    match f.failsAt
    case Some(k) => if k < |f.lines| then f.lines[..k] else f.lines
    case None => f.lines
  }

  /** The loop `for line, s in enumerate(file)` from index `from` on. */
  function MatchingLines(lines: seq<string>, query: string, from: nat): (hits: seq<Hit>)
    requires from <= |lines|
    ensures forall k :: 0 <= k < |hits| ==>
      from <= hits[k].line < |lines| && hits[k].text == lines[hits[k].line] && MatchesQuery(hits[k].text, query)
    ensures forall k, l :: 0 <= k < l < |hits| ==> hits[k].line < hits[l].line
    ensures forall i :: from <= i < |lines| && MatchesQuery(lines[i], query) ==> Hit(i, lines[i]) in hits
    decreases |lines| - from
  {
    if from == |lines| then []
    else
      var rest := MatchingLines(lines, query, from + 1);
      var here := MatchesQuery(lines[from], query);
      if here then
        var hits := [Hit(from, lines[from])] + rest;
        assert forall k :: 0 <= k < |rest| ==> hits[k + 1] == rest[k];
        assert hits[0].line == from;
        hits
      else rest
  }

  /**
   * `search_file_for_string(f, query)`. A file of at least `MaxFileSize`
   * bytes or with a hidden basename yields nothing; otherwise every
   * readable line containing the query is yielded, in file order. Anything
   * that is not a regular file yields nothing (opening it fails).
   */
  function SearchFile(f: FileRef, query: string): (hits: seq<Hit>)
    ensures !f.file.File? || f.file.size >= MaxFileSize || IsHidden(f.Path()) ==> hits == []
    ensures forall k :: 0 <= k < |hits| ==>
      && f.file.File?
      && hits[k].line < |ReadableLines(f.file)|
      && hits[k].text == f.file.lines[hits[k].line]
      && MatchesQuery(hits[k].text, query)
    ensures forall k, l :: 0 <= k < l < |hits| ==> hits[k].line < hits[l].line
    ensures f.file.File? && f.file.size < MaxFileSize && !IsHidden(f.Path()) ==>
      forall i :: 0 <= i < |ReadableLines(f.file)| && MatchesQuery(f.file.lines[i], query) ==>
        Hit(i, f.file.lines[i]) in hits
  {
    if f.file.File? && f.file.size < MaxFileSize && !IsHidden(f.Path()) then
      MatchingLines(ReadableLines(f.file), query, 0)
    else []
  }

  /** A read error only cuts the scan short: the lines before it are scanned as usual. */
  lemma ReadErrorKeepsEarlierHits(name: string, size: nat, lines: seq<string>, k: nat, query: string)
    requires k <= |lines|
    ensures MatchingLines(ReadableLines(File(name, size, lines, Some(k))), query, 0)
         == MatchingLines(lines[..k], query, 0)
  {
  }

}
