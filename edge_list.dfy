/**
 * The text format read by GrafoDisperso::cargarDatos: one directed edge per
 * line, written as two integers.  A line is skipped when it is empty, when it
 * starts with '#', when the standard stream extraction of two `int`s from it
 * fails, or when one of the two integers is negative.
 *
 * Integer extraction follows `std::istream >> int`: leading white space is
 * skipped, an optional sign is read, then one or more decimal digits; the
 * rest of the line is ignored.
 */
module EdgeList {
  import opened Wrappers

  /** The characters `isspace` accepts in the "C" locale. */
  predicate IsSpace(c: char) {
    c == ' ' || c == '\t' || c == '\n' || c == '\r' || c as int == 11 || c as int == 12
  }

  predicate IsDigit(c: char) {
    '0' <= c <= '9'
  }

  predicate AllDigits(s: string) {
    forall i :: 0 <= i < |s| ==> IsDigit(s[i])
  }

  /** `s` without its leading white space. */
  function SkipSpaces(s: string): (r: string)
    ensures |r| <= |s|
  {
    if s != [] && IsSpace(s[0]) then SkipSpaces(s[1..]) else s
  }

  /** The end of the run of decimal digits of `s` that starts at index `i`. */
  function DigitsEnd(s: string, i: nat): (k: nat)
    requires i <= |s|
    ensures i <= k <= |s|
    decreases |s| - i
  {
    if i < |s| && IsDigit(s[i]) then DigitsEnd(s, i + 1) else i
  }

  /** The length of the longest prefix of `s` made only of decimal digits. */
  function DigitsLen(s: string): (k: nat)
    ensures k <= |s|
  {
    DigitsEnd(s, 0)
  }

  /** The number a string of decimal digits denotes. */
  function DigitsValue(ds: string): int {
    if ds == [] then 0
    else 10 * DigitsValue(ds[..|ds| - 1]) + (ds[|ds| - 1] as int - '0' as int)
  }

  /**
   * One `>> int` extraction: the integer read and the text left after it, or
   * None when no digits follow the optional sign.
   */
  function ExtractInt(s: string): (r: Option<(int, string)>)
    ensures r.Some? ==> |r.value.1| < |s|
  {
    var t := SkipSpaces(s);
    var negative := |t| > 0 && t[0] == '-';
    var u := if |t| > 0 && (t[0] == '-' || t[0] == '+') then t[1..] else t;
    var k := DigitsLen(u);
    if k == 0 then None
    else
      var v: int := DigitsValue(u[..k]);
      Some((if negative then -v else v, u[k..]))
  }

  /** `iss >> origen >> destino`: two successive extractions. */
  function ExtractPair(line: string): Option<(int, int)> {
    match ExtractInt(line)
    case None => None
    case Some((origen, rest)) =>
      match ExtractInt(rest)
      case None => None
      case Some((destino, _)) => Some((origen, destino))
  }

  /**
   * The edge a line contributes to the graph, if any.  Both endpoints of an
   * accepted edge are non-negative; every other line yields None.
   */
  function AcceptedEdge(line: string): (r: Option<(int, int)>)
    ensures r.Some? ==> r.value.0 >= 0 && r.value.1 >= 0
    ensures r.Some? ==> |line| > 0 && line[0] != '#' && ExtractPair(line) == r
    ensures r.None? <==>
      || |line| == 0
      || line[0] == '#'
      || ExtractPair(line).None?
      || ExtractPair(line).value.0 < 0
      || ExtractPair(line).value.1 < 0
  {
    if |line| == 0 || line[0] == '#' then None
    else
      match ExtractPair(line)
      case None => None
      case Some((origen, destino)) =>
        if origen < 0 || destino < 0 then None else Some((origen, destino))
  }

  /** The accepted edge of every line, in file order. */
  function Parse(lines: seq<string>): (ps: seq<Option<(int, int)>>)
    ensures |ps| == |lines|
  {
    seq(|lines|, i requires 0 <= i < |lines| => AcceptedEdge(lines[i]))
  }

  /** The distinct edges among the accepted ones: a duplicate pair counts once. */
  function EdgesOf(ps: seq<Option<(int, int)>>): set<(int, int)> {
    if ps == [] then {}
    else
      EdgesOf(ps[..|ps| - 1]) +
        match ps[|ps| - 1] case Some(e) => {e} case None => {}
  }

  lemma {:induction false} EdgesOfMembers(ps: seq<Option<(int, int)>>)
    ensures forall e :: e in EdgesOf(ps) <==> exists i :: 0 <= i < |ps| && ps[i] == Some(e)
  {
    if ps != [] {
      var prefix := ps[..|ps| - 1];
      EdgesOfMembers(prefix);
      forall e | e in EdgesOf(ps)
        ensures exists i :: 0 <= i < |ps| && ps[i] == Some(e)
      {
        if e in EdgesOf(prefix) {
          var i :| 0 <= i < |prefix| && prefix[i] == Some(e);
          assert ps[i] == prefix[i];
        } else {
          assert ps[|ps| - 1] == Some(e);
        }
      }
      forall e | exists i :: 0 <= i < |ps| && ps[i] == Some(e)
        ensures e in EdgesOf(ps)
      {
        var i :| 0 <= i < |ps| && ps[i] == Some(e);
        if i < |prefix| {
          assert prefix[i] == ps[i];
        }
      }
    }
  }

  /**
   * The largest endpoint, source or destination, of the accepted edges, or -1
   * when there is none; a duplicate or a self-loop counts like any other edge.
   */
  function MaxOf(ps: seq<Option<(int, int)>>): (m: int)
    requires forall i :: 0 <= i < |ps| && ps[i].Some? ==> ps[i].value.0 >= 0 && ps[i].value.1 >= 0
    ensures m == -1 <==> EdgesOf(ps) == {}
    ensures m >= -1
    ensures forall e :: e in EdgesOf(ps) ==> e.0 <= m && e.1 <= m
    ensures m >= 0 ==> exists e :: e in EdgesOf(ps) && (e.0 == m || e.1 == m)
  {
    if ps == [] then -1
    else
      var m := MaxOf(ps[..|ps| - 1]);
      match ps[|ps| - 1]
      case None => m
      case Some((origen, destino)) => Max(m, Max(origen, destino))
  }

  function Max(a: int, b: int): int {
    if a < b then b else a
  }

  /** The set of distinct directed edges a file's lines describe. */
  function EdgeSet(lines: seq<string>): set<(int, int)> {
    EdgesOf(Parse(lines))
  }

  /** 1 + MaxId(lines) is the node count of the graph the lines describe. */
  function MaxId(lines: seq<string>): int {
    MaxOf(Parse(lines))
  }

  /**
   * The edges of a file are exactly the accepted edges of its lines: an edge
   * listed twice is there once, a self-loop is kept, a skipped line adds
   * nothing.
   */
  lemma EdgeSetMembers(lines: seq<string>)
    ensures forall e :: e in EdgeSet(lines) <==> exists i :: 0 <= i < |lines| && AcceptedEdge(lines[i]) == Some(e)
  {
    var ps := Parse(lines);
    EdgesOfMembers(ps);
    forall e
      ensures e in EdgeSet(lines) <==> exists i :: 0 <= i < |lines| && AcceptedEdge(lines[i]) == Some(e)
    {
      if e in EdgeSet(lines) {
        var i :| 0 <= i < |ps| && ps[i] == Some(e);
        assert AcceptedEdge(lines[i]) == Some(e);
      }
      if exists i :: 0 <= i < |lines| && AcceptedEdge(lines[i]) == Some(e) {
        var i :| 0 <= i < |lines| && AcceptedEdge(lines[i]) == Some(e);
        assert ps[i] == Some(e);
      }
    }
  }

  /** The bounds of MaxId, the node count minus one. */
  lemma MaxIdBounds(lines: seq<string>)
    ensures MaxId(lines) == -1 <==> EdgeSet(lines) == {}
    ensures MaxId(lines) >= -1
    ensures forall e :: e in EdgeSet(lines) ==> 0 <= e.0 <= MaxId(lines) && 0 <= e.1 <= MaxId(lines)
    ensures MaxId(lines) >= 0 ==> exists e :: e in EdgeSet(lines) && (e.0 == MaxId(lines) || e.1 == MaxId(lines))
  {
    EdgeSetMembers(lines);
  }

  /** The decimal text of a natural number, without sign or leading zeros. */
  function ShowNat(n: nat): (s: string)
    ensures |s| > 0 && AllDigits(s)
  {
    if n < 10 then ['0' + n as char]
    else ShowNat(n / 10) + ['0' + (n % 10) as char]
  }

  lemma {:induction false} ShowNatValue(n: nat)
    ensures DigitsValue(ShowNat(n)) == n
  {
    var s := ShowNat(n);
    if n >= 10 {
      ShowNatValue(n / 10);
      assert s[..|s| - 1] == ShowNat(n / 10);
    }
  }

  lemma {:induction false} DigitsEndAppend(ds: string, rest: string, i: nat)
    requires AllDigits(ds) && i <= |ds|
    requires rest == [] || !IsDigit(rest[0])
    ensures DigitsEnd(ds + rest, i) == |ds|
    decreases |ds| - i
  {
    if i < |ds| {
      DigitsEndAppend(ds, rest, i + 1);
    }
  }

  lemma {:induction false} ExtractShown(n: nat, rest: string)
    requires rest == [] || !IsDigit(rest[0])
    ensures ExtractInt(ShowNat(n) + rest) == Some((n, rest))
  {
    var s := ShowNat(n) + rest;
    assert SkipSpaces(s) == s;
    DigitsEndAppend(ShowNat(n), rest, 0);
    assert s[..|ShowNat(n)|] == ShowNat(n);
    assert s[|ShowNat(n)|..] == rest;
    ShowNatValue(n);
  }

  /**
   * A line written in the dataset format "<src> <dst>", followed by nothing
   * or by text that does not continue the second number, is read back as the
   * edge (src, dst).
   */
  lemma {:induction false} FormattedLineRoundTrip(origen: nat, destino: nat, tail: string)
    requires tail == [] || !IsDigit(tail[0])
    ensures AcceptedEdge(ShowNat(origen) + " " + ShowNat(destino) + tail) == Some((origen, destino))
  {
    var line := ShowNat(origen) + " " + ShowNat(destino) + tail;
    FormattedPair(origen, destino, tail);
    assert line[0] == ShowNat(origen)[0];
    AcceptedOf(line, origen, destino);
  }

  /** The two extractions of such a line read its two numbers. */
  lemma FormattedPair(origen: nat, destino: nat, tail: string)
    requires tail == [] || !IsDigit(tail[0])
    ensures ExtractPair(ShowNat(origen) + " " + ShowNat(destino) + tail) == Some((origen as int, destino as int))
  {
    var second := " " + (ShowNat(destino) + tail);
    var line := ShowNat(origen) + second;
    ExtractShown(origen, second);
    LeadingSpace(ShowNat(destino) + tail);
    ExtractShown(destino, tail);
    PairOf(line, origen, second, destino, tail);
    ConcatAssoc(" ", ShowNat(destino), tail);
    ConcatAssoc(ShowNat(origen), " ", ShowNat(destino));
    ConcatAssoc(ShowNat(origen), " " + ShowNat(destino), tail);
  }

  lemma ConcatAssoc(a: string, b: string, c: string)
    ensures a + b + c == a + (b + c)
  {
  }

  /** A leading blank does not change what an extraction reads. */
  lemma LeadingSpace(s: string)
    ensures ExtractInt(" " + s) == ExtractInt(s)
  {
    assert SkipSpaces(" " + s) == SkipSpaces(s) by {
      assert (" " + s)[1..] == s;
    }
  }

  /** Two successful extractions in a row read a pair. */
  lemma PairOf(line: string, a: int, rest: string, b: int, rest2: string)
    requires ExtractInt(line) == Some((a, rest))
    requires ExtractInt(rest) == Some((b, rest2))
    ensures ExtractPair(line) == Some((a, b))
  {
  }

  /** A pair read from a line that is neither empty nor a comment, with no negative part, is accepted. */
  lemma AcceptedOf(line: string, a: int, b: int)
    requires |line| > 0 && line[0] != '#'
    requires ExtractPair(line) == Some((a, b)) && a >= 0 && b >= 0
    ensures AcceptedEdge(line) == Some((a, b))
  {
  }

  lemma {:induction false} ExtractNegative(n: nat, rest: string)
    requires rest == [] || !IsDigit(rest[0])
    ensures ExtractInt("-" + ShowNat(n) + rest) == Some((-(n as int), rest))
  {
    var s := "-" + ShowNat(n) + rest;
    var u := ShowNat(n) + rest;
    assert SkipSpaces(s) == s;
    assert s[1..] == u;
    DigitsEndAppend(ShowNat(n), rest, 0);
    assert u[..|ShowNat(n)|] == ShowNat(n);
    assert u[|ShowNat(n)|..] == rest;
    ShowNatValue(n);
  }

  /** A line whose source is a nonzero number written with a minus sign adds no edge. */
  lemma {:induction false} NegativeSourceSkipped(origen: nat, destino: nat)
    requires origen > 0
    ensures AcceptedEdge("-" + ShowNat(origen) + " " + ShowNat(destino)) == None
  {
    var second := " " + (ShowNat(destino) + []);
    var line := "-" + ShowNat(origen) + second;
    ExtractNegative(origen, second);
    LeadingSpace(ShowNat(destino) + []);
    ExtractShown(destino, []);
    PairOf(line, -(origen as int), second, destino, []);
    assert line[0] == '-';
    RejectedNegative(line, -(origen as int), destino);
    assert ShowNat(destino) + [] == ShowNat(destino);
    ConcatAssoc("-" + ShowNat(origen), " ", ShowNat(destino));
  }

  /** A pair read with a negative part is rejected. */
  lemma RejectedNegative(line: string, a: int, b: int)
    requires |line| > 0 && line[0] != '#'
    requires ExtractPair(line) == Some((a, b)) && (a < 0 || b < 0)
    ensures AcceptedEdge(line) == None
  {
  }

  /** A line starting with '#' adds no edge, whatever follows. */
  lemma CommentSkipped(rest: string)
    ensures AcceptedEdge("#" + rest) == None
  {
  }

  // ---------------------------------------------------------------------------
  // The text `>> int` reads, and the lines that yield an edge

  predicate AllSpaces(w: string) {
    forall i :: 0 <= i < |w| ==> IsSpace(w[i])
  }

  /**
   * The text of one extracted integer: blanks, then an optional sign, then
   * one or more decimal digits.
   */
  predicate IntText(w: string, sign: string, ds: string) {
    && AllSpaces(w)
    && (sign == "" || sign == "-" || sign == "+")
    && ds != [] && AllDigits(ds)
  }

  /** The value of a sign and a run of digits. */
  function SignedValue(sign: string, ds: string): int {
    if sign == "-" then -DigitsValue(ds) else DigitsValue(ds)
  }

  lemma {:induction false} SkipSpacesOf(w: string, x: string)
    requires AllSpaces(w)
    requires x == [] || !IsSpace(x[0])
    ensures SkipSpaces(w + x) == x
  {
    if w != [] {
      assert (w + x)[1..] == w[1..] + x;
      SkipSpacesOf(w[1..], x);
    }
  }

  lemma {:induction false} SkipSpacesShape(s: string)
    ensures |SkipSpaces(s)| <= |s|
    ensures AllSpaces(s[..|s| - |SkipSpaces(s)|])
    ensures s == s[..|s| - |SkipSpaces(s)|] + SkipSpaces(s)
  {
    if s != [] && IsSpace(s[0]) {
      SkipSpacesShape(s[1..]);
      var t := SkipSpaces(s[1..]);
      assert s[1..][..|s[1..]| - |t|] == s[1..|s| - |t|];
      assert s[..|s| - |t|] == [s[0]] + s[1..|s| - |t|];
    }
  }

  lemma {:induction false} DigitsEndShape(s: string, i: nat)
    requires i <= |s|
    ensures forall j :: i <= j < DigitsEnd(s, i) ==> IsDigit(s[j])
    ensures DigitsEnd(s, i) == |s| || !IsDigit(s[DigitsEnd(s, i)])
    decreases |s| - i
  {
    if i < |s| && IsDigit(s[i]) {
      DigitsEndShape(s, i + 1);
    }
  }

  /**
   * `>> int` on blanks, a sign and digits followed by a non-digit (or
   * nothing) reads the signed value and leaves the rest.
   */
  lemma ExtractIntOf(w: string, sign: string, ds: string, rest: string)
    requires IntText(w, sign, ds)
    requires rest == [] || !IsDigit(rest[0])
    ensures ExtractInt(w + sign + ds + rest) == Some((SignedValue(sign, ds), rest))
  {
    var u := ds + rest;
    var x := sign + u;
    assert w + sign + ds + rest == w + x;
    assert !IsSpace(x[0]) by {
      if sign == "" { assert x[0] == ds[0]; } else { assert x[0] == sign[0]; }
    }
    SkipSpacesOf(w, x);
    DigitsEndAppend(ds, rest, 0);
    assert u[..|ds|] == ds && u[|ds|..] == rest;
    ExtractIntFrom(w + x, x, sign, u);
  }

  /** ExtractInt, once the blanks are skipped and the sign is split off. */
  lemma ExtractIntFrom(s: string, t: string, sign: string, u: string)
    requires SkipSpaces(s) == t && t == sign + u
    requires sign == "" || sign == "-" || sign == "+"
    requires sign == "" ==> u == [] || (u[0] != '-' && u[0] != '+')
    ensures DigitsLen(u) == 0 ==> ExtractInt(s) == None
    ensures DigitsLen(u) > 0 ==>
      ExtractInt(s) == Some((SignedValue(sign, u[..DigitsLen(u)]), u[DigitsLen(u)..]))
  {
    var negative := |t| > 0 && t[0] == '-';
    var u' := if |t| > 0 && (t[0] == '-' || t[0] == '+') then t[1..] else t;
    if sign != "" {
      assert t[0] == sign[0] && t[1..] == u;
    } else {
      assert t == u;
    }
    assert u' == u && negative == (sign == "-");
    var k := DigitsLen(u);
    if k > 0 {
      var v := DigitsValue(u[..k]);
      assert SignedValue(sign, u[..k]) == if negative then -v else v;
    }
  }

  /**
   * Conversely, whatever `>> int` reads is such a text: the input is blanks,
   * a sign, digits and the rest, and the rest does not continue the digits.
   */
  lemma ExtractIntShape(s: string) returns (w: string, sign: string, ds: string)
    requires ExtractInt(s).Some?
    ensures IntText(w, sign, ds)
    ensures s == w + sign + ds + ExtractInt(s).value.1
    ensures ExtractInt(s).value.1 == [] || !IsDigit(ExtractInt(s).value.1[0])
    ensures ExtractInt(s).value.0 == SignedValue(sign, ds)
  {
    var t := SkipSpaces(s);
    SkipSpacesShape(s);
    w := s[..|s| - |t|];
    var u;
    sign, u := SignSplit(t);
    ExtractIntFrom(s, t, sign, u);
    var rest;
    ds, rest := DigitsSplit(u);
    assert rest == ExtractInt(s).value.1;
    ConcatAssoc(w + sign, ds, rest);
    ConcatAssoc(w, sign, ds + rest);
  }

  /** The optional sign at the head of `t`, and what follows it. */
  lemma SignSplit(t: string) returns (sign: string, u: string)
    ensures sign == "" || sign == "-" || sign == "+"
    ensures t == sign + u
    ensures sign == "" ==> u == [] || (u[0] != '-' && u[0] != '+')
  {
    if |t| > 0 && (t[0] == '-' || t[0] == '+') {
      sign, u := t[..1], t[1..];
    } else {
      sign, u := "", t;
    }
  }

  /** The leading digits of `u`, and what follows them. */
  lemma DigitsSplit(u: string) returns (ds: string, rest: string)
    ensures ds == u[..DigitsLen(u)] && rest == u[DigitsLen(u)..]
    ensures AllDigits(ds) && u == ds + rest
    ensures rest == [] || !IsDigit(rest[0])
  {
    DigitsEndShape(u, 0);
    ds, rest := u[..DigitsLen(u)], u[DigitsLen(u)..];
  }

  /**
   * A line yields the edge (a, b) only when it is the text of a, then at
   * least a blank or a sign, then the text of b, then nothing or a
   * non-digit, with a and b non-negative.
   */
  lemma AcceptedLineShape(line: string)
    returns (w1: string, sign1: string, d1: string, w2: string, sign2: string, d2: string, tail: string)
    requires AcceptedEdge(line).Some?
    ensures IntText(w1, sign1, d1) && IntText(w2, sign2, d2) && w2 + sign2 != []
    ensures tail == [] || !IsDigit(tail[0])
    ensures line == w1 + sign1 + d1 + w2 + sign2 + d2 + tail
    ensures AcceptedEdge(line) == Some((SignedValue(sign1, d1), SignedValue(sign2, d2)))
    ensures SignedValue(sign1, d1) >= 0 && SignedValue(sign2, d2) >= 0
  {
    var first := ExtractInt(line).value;
    w1, sign1, d1 := ExtractIntShape(line);
    var second := ExtractInt(first.1).value;
    w2, sign2, d2 := ExtractIntShape(first.1);
    tail := second.1;
    ConcatAssoc(w1 + sign1 + d1, w2 + sign2 + d2, tail);
    assert line == w1 + sign1 + d1 + (w2 + sign2 + d2 + tail);
    assert w1 + sign1 + d1 + (w2 + sign2 + d2 + tail) == w1 + sign1 + d1 + w2 + sign2 + d2 + tail;
  }

  /**
   * And every such line yields its edge when both values are non-negative,
   * and no edge when one of them is negative.
   */
  lemma AcceptedLineOf(w1: string, sign1: string, d1: string, w2: string, sign2: string, d2: string, tail: string)
    requires IntText(w1, sign1, d1) && IntText(w2, sign2, d2) && w2 + sign2 != []
    requires tail == [] || !IsDigit(tail[0])
    ensures AcceptedEdge(w1 + sign1 + d1 + w2 + sign2 + d2 + tail) ==
      var a, b := SignedValue(sign1, d1), SignedValue(sign2, d2);
      if a >= 0 && b >= 0 then Some((a, b)) else None
  {
    var rest := w2 + sign2 + d2 + tail;
    var line := w1 + sign1 + d1 + rest;
    assert line == w1 + sign1 + d1 + w2 + sign2 + d2 + tail;
    assert rest[0] == (w2 + sign2)[0];
    ExtractIntOf(w1, sign1, d1, rest);
    ExtractIntOf(w2, sign2, d2, tail);
    PairOf(line, SignedValue(sign1, d1), rest, SignedValue(sign2, d2), tail);
    assert line[0] == (w1 + sign1 + d1)[0];
    assert line[0] != '#';
  }
}
