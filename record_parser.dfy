/**
 * `extract_uuid`: the node id of a trace line is the first run of digits
 * written between brackets, as found by `re.search(r"\[(\d+)\].*", line)`.
 * A line without one makes `m.group` fail; that is the None result.
 */
module RecordParser {
  import opened Wrappers

  /** `\d` of a Python 2 byte-string pattern. */
  predicate IsDigit(c: char) {
    '0' <= c <= '9'
  }

  predicate AllDigits(u: string) {
    forall i :: 0 <= i < |u| ==> IsDigit(u[i])
  }

  /** Length of the maximal run of digits starting at position k. */
  function DigitRun(s: string, k: nat): (n: nat)
    requires k <= |s|
    ensures k + n <= |s|
    ensures forall j :: k <= j < k + n ==> IsDigit(s[j])
    ensures k + n == |s| || !IsDigit(s[k + n])
    decreases |s| - k
  {
    if k < |s| && IsDigit(s[k]) then 1 + DigitRun(s, k + 1) else 0
  }

  /** The pattern matches at position i: `[`, the greedy `\d+`, then `]`. */
  predicate TagAt(s: string, i: nat)
    requires i < |s|
  {
    var n := DigitRun(s, i + 1);
    s[i] == '[' && n > 0 && i + 1 + n < |s| && s[i + 1 + n] == ']'
  }

  /** Reference reading of the pattern: `"[" + u + "]"` occurs at i with u non-empty digits. */
  ghost predicate Bracketed(s: string, i: nat, u: string) {
    u != [] && AllDigits(u) && i + |u| + 2 <= |s| && s[i..i + |u| + 2] == "[" + u + "]"
  }

  /** The id the match at position i captures. */
  function TagText(s: string, i: nat): string
    requires i < |s| && TagAt(s, i)
  {
    s[i + 1..i + 1 + DigitRun(s, i + 1)]
  }

  /** Leftmost match at or after `from`, as `re.search` scans. */
  function FindTag(s: string, from: nat): (r: Option<nat>)
    requires from <= |s|
    ensures r.Some? ==> from <= r.value < |s| && TagAt(s, r.value)
    ensures r.Some? ==> forall j :: from <= j < r.value ==> !TagAt(s, j)
    ensures r.None? ==> forall j :: from <= j < |s| ==> !TagAt(s, j)
    decreases |s| - from
  {
    if from == |s| then None
    else if TagAt(s, from) then Some(from)
    else FindTag(s, from + 1)
  }

  /** `extract_uuid(s)`; None where the source raises on `m.group`. */
  function ExtractUuid(s: string): (r: Option<string>)
    ensures r.Some? ==> r.value != [] && AllDigits(r.value)
  {
    match FindTag(s, 0)
    case None => None
    case Some(i) => Some(TagText(s, i))
  }

  /** The pattern matches at i exactly when some bracketed digit string starts there. */
  lemma TagAtIffBracketed(s: string, i: nat, u: string)
    requires i < |s|
    ensures Bracketed(s, i, u) <==> TagAt(s, i) && u == TagText(s, i)
  {
    if Bracketed(s, i, u) {
      var w := s[i..i + |u| + 2];
      assert w[0] == '[' && w[|u| + 1] == ']';
      assert forall j :: 0 <= j < |u| ==> s[i + 1 + j] == u[j] by {
        forall j | 0 <= j < |u| ensures s[i + 1 + j] == u[j] {
          assert w[1 + j] == u[j];
        }
      }
      DigitRunStops(s, i + 1, |u|);
      assert s[i + 1..i + 1 + |u|] == u;
    }
    if TagAt(s, i) && u == TagText(s, i) {
      var n := DigitRun(s, i + 1);
      assert s[i..i + |u| + 2] == "[" + u + "]";
    }
  }

  /** A digit run of length n followed by a non-digit makes DigitRun return n. */
  lemma {:induction false} DigitRunStops(s: string, k: nat, n: nat)
    requires k + n < |s|
    requires forall j :: k <= j < k + n ==> IsDigit(s[j])
    requires !IsDigit(s[k + n])
    ensures DigitRun(s, k) == n
    decreases n
  {
    if n > 0 {
      DigitRunStops(s, k + 1, n - 1);
    }
  }

  /**
   * A successful extraction returns the digits of the leftmost bracketed
   * digit string: `"[" + u + "]"` occurs in the line, and no bracketed digit
   * string starts further left.
   */
  lemma ExtractUuidLeftmost(s: string, u: string)
    requires ExtractUuid(s) == Some(u)
    ensures exists i: nat :: Bracketed(s, i, u) && forall j: nat, v :: j < i ==> !Bracketed(s, j, v)
  {
    var i := FindTag(s, 0).value;
    TagAtIffBracketed(s, i, u);
    forall j: nat, v | j < i ensures !Bracketed(s, j, v) {
      TagAtIffBracketed(s, j, v);
    }
  }

  /** Extraction fails only on lines without any bracketed digit string. */
  lemma ExtractUuidComplete(s: string, i: nat, u: string)
    requires Bracketed(s, i, u)
    ensures ExtractUuid(s).Some?
  {
    TagAtIffBracketed(s, i, u);
  }
}
