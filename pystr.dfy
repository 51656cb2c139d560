/**
 * The parts of Python 2's `str` that the visualizer relies on: `split()` with
 * no argument (runs of whitespace), `split(sep)` with a one-character
 * separator, `startswith`, and `int(s, 16)`.
 */
module PyStr {
  import opened Wrappers

  /** The characters `str.isspace()` accepts in Python 2's C locale. */
  predicate IsSpace(c: char) {
    c == ' ' || c == '\t' || c == '\n' || c == '\r' || c == '\U{000B}' || c == '\U{000C}'
  }

  /** A token produced by `str.split()`: non-empty and free of whitespace. */
  predicate IsToken(t: string) {
    t != [] && forall i :: 0 <= i < |t| ==> !IsSpace(t[i])
  }

  predicate StartsWith(s: string, c: char) {
    |s| > 0 && s[0] == c
  }

  // ---------------------------------------------------------------------
  // str.split()

  /** Length of the leading run of non-whitespace characters. */
  function WordLen(s: string): (n: nat)
    ensures n <= |s|
    ensures forall i :: 0 <= i < n ==> !IsSpace(s[i])
    ensures n < |s| ==> IsSpace(s[n])
  {
    if s == [] || IsSpace(s[0]) then 0 else 1 + WordLen(s[1..])
  }

  /** Python's `s.split()`: the maximal whitespace-free runs of `s`, in order. */
  function SplitWs(s: string): (r: seq<string>)
    ensures forall i :: 0 <= i < |r| ==> IsToken(r[i])
    decreases |s|
  {
    if s == [] then []
    else if IsSpace(s[0]) then SplitWs(s[1..])
    else
      var n := WordLen(s);
      [s[..n]] + SplitWs(s[n..])
  }

  /** `" ".join(ts)` */
  function JoinSpaced(ts: seq<string>): string {
    if ts == [] then ""
    else if |ts| == 1 then ts[0]
    else ts[0] + " " + JoinSpaced(ts[1..])
  }

  /** Removes every whitespace character; the reference for what `split()` keeps. */
  function NonSpace(s: string): (r: string)
    ensures |r| <= |s|
  {
    if s == [] then ""
    else if IsSpace(s[0]) then NonSpace(s[1..])
    else [s[0]] + NonSpace(s[1..])
  }

  function Concat(ts: seq<string>): string {
    if ts == [] then "" else ts[0] + Concat(ts[1..])
  }

  lemma {:induction false} WordLenOfToken(t: string, u: string)
    requires forall i :: 0 <= i < |t| ==> !IsSpace(t[i])
    requires u == [] || IsSpace(u[0])
    ensures WordLen(t + u) == |t|
  {
    if t != [] {
      assert (t + u)[1..] == t[1..] + u;
      WordLenOfToken(t[1..], u);
    }
  }

  lemma {:induction false} NonSpaceAppend(a: string, b: string)
    ensures NonSpace(a + b) == NonSpace(a) + NonSpace(b)
  {
    if a != [] {
      assert (a + b)[1..] == a[1..] + b;
      NonSpaceAppend(a[1..], b);
    } else {
      assert a + b == b;
    }
  }

  lemma {:induction false} NonSpaceOfToken(t: string)
    requires forall i :: 0 <= i < |t| ==> !IsSpace(t[i])
    ensures NonSpace(t) == t
  {
    if t != [] {
      NonSpaceOfToken(t[1..]);
    }
  }

  /** Splitting `" ".join(ts)` on whitespace gives back the tokens `ts`. */
  lemma {:induction false} SplitWsJoin(ts: seq<string>)
    requires forall i :: 0 <= i < |ts| ==> IsToken(ts[i])
    ensures SplitWs(JoinSpaced(ts)) == ts
  {
    if ts == [] {
    } else if |ts| == 1 {
      var t := ts[0];
      WordLenOfToken(t, "");
      assert t + "" == t;
      assert t[|t|..] == [];
      assert t[..|t|] == t;
    } else {
      var t, rest := ts[0], JoinSpaced(ts[1..]);
      var s := t + " " + rest;
      assert s == t + (" " + rest);
      WordLenOfToken(t, " " + rest);
      assert s[..|t|] == t;
      assert s[|t|..] == " " + rest;
      assert (" " + rest)[1..] == rest;
      SplitWsJoin(ts[1..]);
    }
  }

  /** `split()` drops exactly the whitespace: the tokens concatenate to NonSpace(s). */
  lemma {:induction false} SplitWsKeepsNonSpace(s: string)
    ensures Concat(SplitWs(s)) == NonSpace(s)
    decreases |s|
  {
    if s == [] {
    } else if IsSpace(s[0]) {
      SplitWsKeepsNonSpace(s[1..]);
    } else {
      var n := WordLen(s);
      assert s == s[..n] + s[n..];
      NonSpaceAppend(s[..n], s[n..]);
      NonSpaceOfToken(s[..n]);
      SplitWsKeepsNonSpace(s[n..]);
      assert Concat([s[..n]] + SplitWs(s[n..])) == s[..n] + Concat(SplitWs(s[n..]));
    }
  }

  // ---------------------------------------------------------------------
  // str.split(sep)

  function IndexOfChar(s: string, c: char): (r: Option<nat>)
    ensures r.Some? ==> r.value < |s| && s[r.value] == c && c !in s[..r.value]
    ensures r.None? ==> c !in s
  {
    if s == [] then None
    else if s[0] == c then Some(0)
    else match IndexOfChar(s[1..], c)
      case None => None
      case Some(i) => Some(i + 1)
  }

  /** Python's `s.split(sep)`: the fields between occurrences of `sep`, empty ones kept. */
  function SplitOn(s: string, sep: char): (r: seq<string>)
    ensures |r| >= 1
    ensures forall i :: 0 <= i < |r| ==> sep !in r[i]
    decreases |s|
  {
    match IndexOfChar(s, sep)
    case None => [s]
    case Some(i) => [s[..i]] + SplitOn(s[i + 1..], sep)
  }

  /** `sep.join(fs)` */
  function JoinOn(fs: seq<string>, sep: char): string
    requires |fs| >= 1
  {
    if |fs| == 1 then fs[0] else fs[0] + [sep] + JoinOn(fs[1..], sep)
  }

  /** Joining the fields with the separator rebuilds the original string. */
  lemma {:induction false} JoinSplitOn(s: string, sep: char)
    ensures JoinOn(SplitOn(s, sep), sep) == s
    decreases |s|
  {
    match IndexOfChar(s, sep)
    case None =>
    case Some(i) =>
      var fs := SplitOn(s, sep);
      var rest := SplitOn(s[i + 1..], sep);
      assert fs == [s[..i]] + rest;
      assert fs[1..] == rest;
      assert JoinOn(fs, sep) == s[..i] + [sep] + JoinOn(rest, sep);
      JoinSplitOn(s[i + 1..], sep);
      assert s == s[..i] + [sep] + s[i + 1..];
  }

  /** Splitting a join of separator-free fields gives back the fields. */
  lemma {:induction false} SplitOnJoin(fs: seq<string>, sep: char)
    requires |fs| >= 1
    requires forall i :: 0 <= i < |fs| ==> sep !in fs[i]
    ensures SplitOn(JoinOn(fs, sep), sep) == fs
  {
    if |fs| > 1 {
      var s := JoinOn(fs, sep);
      var rest := JoinOn(fs[1..], sep);
      assert s == fs[0] + ([sep] + rest);
      NoSepIndex(fs[0], [sep] + rest, sep);
      assert s[..|fs[0]|] == fs[0];
      assert s[|fs[0]| + 1..] == rest;
      SplitOnJoin(fs[1..], sep);
      assert fs == [fs[0]] + fs[1..];
    } else {
      NoSepIndex(fs[0], [], sep);
      assert fs[0] + [] == fs[0];
    }
  }

  lemma {:induction false} NoSepIndex(a: string, b: string, sep: char)
    requires sep !in a
    requires b == [] || b[0] == sep
    ensures IndexOfChar(a + b, sep) == if b == [] then None else Some(|a|)
  {
    if a != [] {
      assert (a + b)[1..] == a[1..] + b;
      NoSepIndex(a[1..], b, sep);
    }
  }

  /** `s.split(sep)[0]`: the text before the first `sep`, or all of `s`. */
  function FirstField(s: string, sep: char): (r: string)
    ensures r <= s
    ensures sep !in r
    ensures |r| < |s| ==> s[|r|] == sep
  {
    SplitOn(s, sep)[0]
  }

  // ---------------------------------------------------------------------
  // int(s, 16)

  function DigitValue(c: char): (r: Option<nat>)
    ensures r.Some? ==> r.value < 16
  {
    if '0' <= c <= '9' then Some(c as nat - '0' as nat)
    else if 'a' <= c <= 'f' then Some(c as nat - 'a' as nat + 10)
    else if 'A' <= c <= 'F' then Some(c as nat - 'A' as nat + 10)
    else None
  }

  predicate AllHex(ds: string) {
    forall i :: 0 <= i < |ds| ==> DigitValue(ds[i]).Some?
  }

  /** The value of a string of hexadecimal digits, most significant first. */
  function HexValue(ds: string): nat
    requires AllHex(ds)
  {
    if ds == [] then 0
    else HexValue(ds[..|ds| - 1]) * 16 + DigitValue(ds[|ds| - 1]).value
  }

  function TrimLeft(s: string): (r: string)
    ensures r == [] || !IsSpace(r[0])
  {
    if s != [] && IsSpace(s[0]) then TrimLeft(s[1..]) else s
  }

  function TrimRight(s: string): (r: string)
    ensures r == [] || !IsSpace(r[|r| - 1])
  {
    if s != [] && IsSpace(s[|s| - 1]) then TrimRight(s[..|s| - 1]) else s
  }

  /** `s.strip()` */
  function Strip(s: string): string {
    TrimRight(TrimLeft(s))
  }

  /** Drops a `0x`/`0X` prefix, if there is one. */
  function Unprefixed(u: string): string {
    if |u| >= 2 && u[0] == '0' && (u[1] == 'x' || u[1] == 'X') then u[2..] else u
  }

  /** The unsigned part: an optional prefix and one or more hexadecimal digits. */
  function ParseUnsigned(u: string): (r: Option<int>)
    ensures r.Some? ==> r.value >= 0
  {
    var ds := Unprefixed(u);
    if ds != [] && AllHex(ds) then Some(HexValue(ds)) else None
  }

  function Negated(r: Option<int>): Option<int> {
    if r.Some? then Some(-r.value) else None
  }

  lemma NegatedSome(r: Option<int>, v: int)
    requires r == Some(v)
    ensures Negated(r) == Some(-v)
  {
  }

  /**
   * Python 2's `int(s, 16)`: leading whitespace, an optional sign, whitespace
   * again (the unsigned conversion skips it too), an optional `0x`/`0X`
   * prefix, one or more hexadecimal digits, and trailing whitespace.
   * Anything else raises ValueError, modelled as None.
   */
  function ParseHex(s: string): (r: Option<int>)
    ensures r.Some? ==> Strip(s) != []
  {
    var t := Strip(s);
    if StartsWith(t, '-') then Negated(ParseUnsigned(TrimLeft(t[1..])))
    else if StartsWith(t, '+') then ParseUnsigned(TrimLeft(t[1..]))
    else ParseUnsigned(t)
  }

  predicate AllSpace(w: string) {
    forall i :: 0 <= i < |w| ==> IsSpace(w[i])
  }

  /** A sign, or nothing. */
  predicate IsSign(sg: string) {
    |sg| <= 1 && (sg != [] ==> sg[0] == '+' || sg[0] == '-')
  }

  /** A `0x`/`0X` prefix, or nothing. */
  predicate IsPrefix(px: string) {
    px == [] || (|px| == 2 && px[0] == '0' && (px[1] == 'x' || px[1] == 'X'))
  }

  /**
   * The literals `int(s, 16)` accepts, written as the pieces of
   * `w1 + sg + w2 + px + ds + w3`: whitespace, a sign or nothing, whitespace
   * that may follow a sign, a prefix or nothing, the digits, whitespace.
   */
  predicate HexLiteral(w1: string, sg: string, w2: string, px: string, ds: string, w3: string) {
    AllSpace(w1) && AllSpace(w2) && AllSpace(w3) && IsSign(sg) && IsPrefix(px) && ds != [] && AllHex(ds)
  }

  function LiteralValue(sg: string, ds: string): int
    requires AllHex(ds)
  {
    if sg != [] && sg[0] == '-' then -(HexValue(ds) as int) else HexValue(ds)
  }

  lemma {:induction false} TrimLeftSpaces(w: string, b: string)
    requires AllSpace(w)
    ensures TrimLeft(w + b) == TrimLeft(b)
  {
    if w != [] {
      assert (w + b)[0] == w[0];
      assert (w + b)[1..] == w[1..] + b;
      TrimLeftSpaces(w[1..], b);
    } else {
      assert w + b == b;
    }
  }

  lemma {:induction false} TrimRightSpaces(a: string, w: string)
    requires AllSpace(w)
    ensures TrimRight(a + w) == TrimRight(a)
  {
    if w != [] {
      assert (a + w)[..|a + w| - 1] == a + w[..|w| - 1];
      TrimRightSpaces(a, w[..|w| - 1]);
    } else {
      assert a + w == a;
    }
  }

  lemma Assoc(a: string, b: string, c: string)
    ensures a + b + c == a + (b + c)
  {
  }

  /** The literal's pieces, regrouped around the text between the outer whitespace. */
  lemma JoinPieces(w1: string, sg: string, w2: string, px: string, ds: string, w3: string)
    ensures w1 + sg + w2 + px + ds + w3 == w1 + (sg + (w2 + (px + ds))) + w3
  {
    Assoc(w1 + sg + w2, px, ds);
    Assoc(w1 + sg, w2, px + ds);
    Assoc(w1, sg, w2 + (px + ds));
  }

  /** Stripping whitespace around a core that starts and ends with non-whitespace gives the core. */
  lemma StripAround(w1: string, core: string, w3: string)
    requires AllSpace(w1) && AllSpace(w3)
    requires core != [] && !IsSpace(core[0]) && !IsSpace(core[|core| - 1])
    ensures Strip(w1 + core + w3) == core
  {
    assert w1 + core + w3 == w1 + (core + w3);
    TrimLeftSpaces(w1, core + w3);
    assert (core + w3)[0] == core[0];
    TrimRightSpaces(core, w3);
  }

  /** A prefix followed by digits is read as the digits' value. */
  lemma ParseUnsignedDigits(px: string, ds: string)
    requires IsPrefix(px) && ds != [] && AllHex(ds)
    ensures ParseUnsigned(px + ds) == Some(HexValue(ds))
  {
    var u := px + ds;
    if px == [] {
      assert u == ds;
      if |u| >= 2 { assert DigitValue(u[1]).Some?; }
      assert Unprefixed(u) == ds;
    } else {
      assert u[2..] == ds;
      assert Unprefixed(u) == ds;
    }
  }

  /** What TrimLeft drops is whitespace, and what it keeps is a suffix. */
  lemma {:induction false} TrimLeftSplit(s: string)
    ensures |TrimLeft(s)| <= |s|
    ensures s == s[..|s| - |TrimLeft(s)|] + TrimLeft(s)
    ensures AllSpace(s[..|s| - |TrimLeft(s)|])
  {
    if s != [] && IsSpace(s[0]) {
      TrimLeftSplit(s[1..]);
      assert s[..|s| - |TrimLeft(s)|] == [s[0]] + s[1..][..|s[1..]| - |TrimLeft(s[1..])|];
    }
  }

  /** What TrimRight drops is whitespace, and what it keeps is a prefix. */
  lemma {:induction false} TrimRightSplit(s: string)
    ensures |TrimRight(s)| <= |s|
    ensures s == TrimRight(s) + s[|TrimRight(s)|..]
    ensures AllSpace(s[|TrimRight(s)|..])
  {
    if s != [] && IsSpace(s[|s| - 1]) {
      var p := s[..|s| - 1];
      TrimRightSplit(p);
      assert s[|TrimRight(s)|..] == p[|TrimRight(p)|..] + [s[|s| - 1]];
    }
  }

  /** Every literal of the accepted shape is parsed, with its signed value. */
  lemma ParseHexAccepts(w1: string, sg: string, w2: string, px: string, ds: string, w3: string)
    requires HexLiteral(w1, sg, w2, px, ds, w3)
    ensures ParseHex(w1 + sg + w2 + px + ds + w3) == Some(LiteralValue(sg, ds))
  {
    var s := w1 + sg + w2 + px + ds + w3;
    var u := px + ds;
    var v: int := HexValue(ds);
    ParseUnsignedDigits(px, ds);
    assert ParseUnsigned(u) == Some(v);
    assert !IsSpace(u[0]) && u[0] != '-' && u[0] != '+' by {
      if px == [] { assert u[0] == ds[0]; assert DigitValue(ds[0]).Some?; } else { assert u[0] == px[0]; }
    }
    assert !IsSpace(u[|u| - 1]) by {
      assert u[|u| - 1] == ds[|ds| - 1];
      assert DigitValue(ds[|ds| - 1]).Some?;
    }
    if sg == [] {
      var lead := w1 + w2;
      assert AllSpace(lead) by {
        forall i | 0 <= i < |lead| ensures IsSpace(lead[i]) { if i >= |w1| { assert lead[i] == w2[i - |w1|]; } }
      }
      JoinPieces(w1, sg, w2, px, ds, w3);
      assert sg + (w2 + u) == w2 + u;
      Assoc(w1, w2, u);
      StripAround(lead, u, w3);
      assert Strip(s) == u;
      assert ParseHex(s) == ParseUnsigned(u);
    } else {
      var core := sg + (w2 + u);
      assert core[|core| - 1] == u[|u| - 1];
      JoinPieces(w1, sg, w2, px, ds, w3);
      StripAround(w1, core, w3);
      assert core[1..] == w2 + u;
      TrimLeftSpaces(w2, u);
      assert TrimLeft(core[1..]) == u;
      assert Strip(s) == core;
      if sg[0] == '-' {
        assert ParseHex(s) == Negated(ParseUnsigned(u));
      } else {
        assert ParseHex(s) == ParseUnsigned(u);
      }
    }
  }

  /** Whitespace may follow the sign. */
  lemma SpaceAfterSign()
    ensures ParseHex("-\tff") == Some(-255)
  {
    ParseHexAccepts("", "-", "\t", "", "ff", "");
    assert "" + "-" + "\t" + "" + "ff" + "" == "-\tff";
    assert HexValue("ff") == 255 by { assert "ff"[..1] == "f"; }
  }

  /** Whitespace may not follow the `0x` prefix. */
  lemma NoSpaceAfterPrefix()
    ensures ParseHex("0x ff") == None
  {
    var bad := "0x ff";
    assert TrimLeft(bad) == bad;
    assert TrimRight(bad) == bad by { assert !IsSpace(bad[|bad| - 1]); }
    assert Unprefixed(bad) == " ff" by { assert bad[2..] == " ff"; }
    assert !AllHex(" ff") by { assert DigitValue(" ff"[0]).None?; }
  }

  /** `s` is its stripped text with whitespace on both sides. */
  lemma StripPieces(s: string) returns (w1: string, w3: string)
    ensures AllSpace(w1) && AllSpace(w3) && s == w1 + Strip(s) + w3
  {
    var a := TrimLeft(s);
    TrimLeftSplit(s);
    TrimRightSplit(a);
    w1 := s[..|s| - |a|];
    w3 := a[|TrimRight(a)|..];
  }

  /** The stripped text is a sign or nothing, whitespace after a sign, and the rest ParseHex reads. */
  lemma SignPieces(t: string) returns (sg: string, w2: string)
    ensures IsSign(sg) && AllSpace(w2)
    ensures (sg != [] && sg[0] == '-') <==> StartsWith(t, '-')
    ensures t == sg + (w2 + (if StartsWith(t, '-') || StartsWith(t, '+') then TrimLeft(t[1..]) else t))
  {
    if StartsWith(t, '-') || StartsWith(t, '+') {
      var rest := t[1..];
      TrimLeftSplit(rest);
      sg := t[..1];
      w2 := rest[..|rest| - |TrimLeft(rest)|];
      assert t == sg + rest;
      assert rest == w2 + TrimLeft(rest);
    } else {
      sg := [];
      w2 := [];
    }
  }

  /** What ParseUnsigned reads is a prefix or nothing, then digits. */
  lemma UnsignedPieces(u: string) returns (px: string, ds: string)
    requires ParseUnsigned(u).Some?
    ensures IsPrefix(px) && ds != [] && AllHex(ds) && u == px + ds
    ensures ParseUnsigned(u) == Some(HexValue(ds))
  {
    ds := Unprefixed(u);
    if |u| >= 2 && u[0] == '0' && (u[1] == 'x' || u[1] == 'X') {
      px := u[..2];
    } else {
      px := [];
    }
  }

  /** Only literals of that shape are parsed, and a literal's value is its signed digit value. */
  lemma ParseHexShape(s: string)
    requires ParseHex(s).Some?
    ensures exists w1, sg, w2, px, ds, w3 ::
      (HexLiteral(w1, sg, w2, px, ds, w3) && s == w1 + sg + w2 + px + ds + w3 &&
       ParseHex(s) == Some(LiteralValue(sg, ds)))
  {
    var t := Strip(s);
    var inner := if StartsWith(t, '-') || StartsWith(t, '+') then TrimLeft(t[1..]) else t;
    assert ParseUnsigned(inner).Some?;
    var w1, w3 := StripPieces(s);
    var sg, w2 := SignPieces(t);
    var px, ds := UnsignedPieces(inner);
    var v: int := HexValue(ds);
    assert ParseUnsigned(inner) == Some(v);
    JoinPieces(w1, sg, w2, px, ds, w3);
    assert t == sg + (w2 + (px + ds));
    assert s == w1 + sg + w2 + px + ds + w3;
    assert HexLiteral(w1, sg, w2, px, ds, w3);
    if StartsWith(t, '-') {
      assert ParseHex(s) == Negated(ParseUnsigned(inner));
      NegatedSome(ParseUnsigned(inner), v);
      assert LiteralValue(sg, ds) == -v;
    } else {
      assert ParseHex(s) == ParseUnsigned(inner);
      assert LiteralValue(sg, ds) == v;
    }
  }

  function HexChar(d: nat): (c: char)
    requires d < 16
    ensures DigitValue(c) == Some(d)
  {
    if d < 10 then ('0' as nat + d) as char else ('a' as nat + d - 10) as char
  }

  /** Lower-case hexadecimal digits of `n`, without a prefix: the inverse of HexValue. */
  function FormatHex(n: nat): (r: string)
    ensures r != [] && AllHex(r)
    ensures HexValue(r) == n
    ensures '0' <= r[0] <= '9' || 'a' <= r[0] <= 'f'
  {
    if n < 16 then [HexChar(n)]
    else
      var hi := FormatHex(n / 16);
      var r := hi + [HexChar(n % 16)];
      assert r[..|r| - 1] == hi;
      r
  }

  /** `int("0x%x" % n, 16) == n` for every non-negative n. */
  lemma ParseHexFormat(n: nat)
    ensures ParseHex("0x" + FormatHex(n)) == Some(n)
  {
    var s := "0x" + FormatHex(n);
    assert TrimLeft(s) == s;
    assert !IsSpace(s[|s| - 1]);
    assert Strip(s) == s;
    assert s[2..] == FormatHex(n);
  }
}
