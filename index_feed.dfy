/**
 * The per-line rules of `setTraceFile`: an index feed fills the `node_ea`
 * map from `E` lines and the `node_lib` map from `L` lines, both split on
 * single spaces. A line that is too short for the field it indexes raises
 * IndexError and ends the import, keeping what was filled so far.
 */
module IndexFeed {
  import opened PyStr

  /** The two maps `setTraceFile` fills. */
  datatype Index = Index(ea: map<string, string>, lib: map<string, string>)

  /** The maps after a prefix of the feed, and whether it went through without raising. */
  datatype Feed = Feed(index: Index, ok: bool)

  function EmptyIndex(): Index {
    Index(map[], map[])
  }

  /** `line.startswith('E')`; whether `splitted[5]` exists is `WellFormed`. */
  predicate IsELine(line: string) {
    StartsWith(line, 'E')
  }

  /** `line.startswith('L')`, checked only when the line is not an `E` line. */
  predicate IsLLine(line: string) {
    !StartsWith(line, 'E') && StartsWith(line, 'L')
  }

  /** The line has every field its branch reads: six for `E`, four for `L`. */
  predicate WellFormed(line: string) {
    (IsELine(line) ==> |SplitOn(line, ' ')| > 5) &&
    (IsLLine(line) ==> |SplitOn(line, ' ')| > 3)
  }

  /** An `E` line that maps key k to address v. */
  ghost predicate EEntry(line: string, k: string, v: string) {
    IsELine(line) && |SplitOn(line, ' ')| > 5 && SplitOn(line, ' ')[5] == k && SplitOn(line, ' ')[1] == v
  }

  /** An `E` line whose key field is k. */
  ghost predicate EKey(line: string, k: string) {
    IsELine(line) && |SplitOn(line, ' ')| > 5 && SplitOn(line, ' ')[5] == k
  }

  /** An `L` line that maps key k to the library text v. */
  ghost predicate LEntry(line: string, k: string, v: string) {
    IsLLine(line) && |SplitOn(line, ' ')| > 3 && SplitOn(line, ' ')[1] == k &&
    v == SplitOn(line, ' ')[2] + " " + SplitOn(line, ' ')[3]
  }

  ghost predicate LKey(line: string, k: string) {
    IsLLine(line) && |SplitOn(line, ' ')| > 3 && SplitOn(line, ' ')[1] == k
  }

  /** One iteration of the loop of `setTraceFile`; not ok where it raises IndexError. */
  function IndexLine(ix: Index, line: string): (r: Feed)
    ensures r.ok <==> WellFormed(line)
    ensures !r.ok ==> r.index == ix
  {
    var f := SplitOn(line, ' ');
    if IsELine(line) then
      if |f| > 5 then Feed(ix.(ea := ix.ea[f[5] := f[1]]), true) else Feed(ix, false)
    else if IsLLine(line) then
      if |f| > 3 then Feed(ix.(lib := ix.lib[f[1] := f[2] + " " + f[3]]), true) else Feed(ix, false)
    else
      Feed(ix, true)
  }

  /** The maps after the first n lines of the feed, stopping at the first line that raises. */
  function IndexPrefix(lines: seq<string>, n: nat): (r: Feed)
    requires n <= |lines|
    ensures r.ok <==> forall i :: 0 <= i < n ==> WellFormed(lines[i])
  {
    if n == 0 then Feed(EmptyIndex(), true)
    else
      var p := IndexPrefix(lines, n - 1);
      if p.ok then IndexLine(p.index, lines[n - 1]) else p
  }

  /** `setTraceFile` over the whole feed. */
  function IndexAll(lines: seq<string>): Feed {
    IndexPrefix(lines, |lines|)
  }

  /** After a feed that went through, k is a key of `node_ea` exactly when some `E` line has key field k. */
  lemma {:induction false} IndexEaKeys(lines: seq<string>, n: nat, k: string)
    requires n <= |lines|
    requires IndexPrefix(lines, n).ok
    ensures k in IndexPrefix(lines, n).index.ea <==> exists i :: 0 <= i < n && EKey(lines[i], k)
  {
    if n > 0 {
      IndexEaKeys(lines, n - 1, k);
    }
  }

  /** Last writer wins in `node_ea`: a key's address is that of the last `E` line with that key. */
  lemma {:induction false} IndexEaLastWriter(lines: seq<string>, n: nat, k: string)
    requires n <= |lines|
    requires IndexPrefix(lines, n).ok
    requires k in IndexPrefix(lines, n).index.ea
    ensures exists i :: 0 <= i < n && EEntry(lines[i], k, IndexPrefix(lines, n).index.ea[k]) &&
                        forall j :: i < j < n ==> !EKey(lines[j], k)
  {
    var ea := IndexPrefix(lines, n).index.ea;
    if EKey(lines[n - 1], k) {
      assert EEntry(lines[n - 1], k, ea[k]);
    } else {
      IndexEaLastWriter(lines, n - 1, k);
    }
  }

  /** After a feed that went through, k is a key of `node_lib` exactly when some `L` line has k as field 1. */
  lemma {:induction false} IndexLibKeys(lines: seq<string>, n: nat, k: string)
    requires n <= |lines|
    requires IndexPrefix(lines, n).ok
    ensures k in IndexPrefix(lines, n).index.lib <==> exists i :: 0 <= i < n && LKey(lines[i], k)
  {
    if n > 0 {
      IndexLibKeys(lines, n - 1, k);
    }
  }

  /** Last writer wins in `node_lib`: a key's text is fields 2 and 3 of the last `L` line with that key. */
  lemma {:induction false} IndexLibLastWriter(lines: seq<string>, n: nat, k: string)
    requires n <= |lines|
    requires IndexPrefix(lines, n).ok
    requires k in IndexPrefix(lines, n).index.lib
    ensures exists i :: 0 <= i < n && LEntry(lines[i], k, IndexPrefix(lines, n).index.lib[k]) &&
                        forall j :: i < j < n ==> !LKey(lines[j], k)
  {
    var lib := IndexPrefix(lines, n).index.lib;
    if LKey(lines[n - 1], k) {
      assert LEntry(lines[n - 1], k, lib[k]);
    } else {
      IndexLibLastWriter(lines, n - 1, k);
    }
  }

  /** Lines with any other prefix change neither map. */
  lemma OtherLinesIgnored(ix: Index, line: string)
    requires !StartsWith(line, 'E') && !StartsWith(line, 'L')
    ensures IndexLine(ix, line) == Feed(ix, true)
  {
  }

  /**
   * A feed that raises keeps the maps as they were after the lines before
   * the first line that is too short for its branch.
   */
  lemma {:induction false} IndexStopsAtFirstBad(lines: seq<string>, n: nat)
    requires n <= |lines|
    requires !IndexPrefix(lines, n).ok
    ensures exists b :: (0 <= b < n && !WellFormed(lines[b]) &&
      (forall i :: 0 <= i < b ==> WellFormed(lines[i])) &&
      IndexPrefix(lines, n).index == IndexPrefix(lines, b).index)
  {
    var p := IndexPrefix(lines, n - 1);
    if p.ok {
      var b := n - 1;
      assert !WellFormed(lines[b]);
    } else {
      IndexStopsAtFirstBad(lines, n - 1);
    }
  }
}
