/** The parts of std::istream the statistics readers rely on, over the text of
    a file: `>>` into a std::string, `>>` into an unsigned 64-bit integer,
    `ignore(n, delim)`, and the loop that reads numbers until one fails.

    A stream is what is still unread together with whether it still converts
    to true (no extraction has failed).  Reaching the end of the text during a
    successful extraction only sets eofbit in the library; the next extraction
    then fails, and that is what the model does, since any extraction from an
    empty rest fails. */
module Stream {
  import opened Globals

  predicate IsSpace(c: char) {
    c == ' ' || '\t' <= c <= '\r'
  }

  datatype IStream = IStream(rest: string, ok: bool)

  /** A freshly opened file stream. */
  function Open(text: string): IStream {
    IStream(text, true)
  }

  /** What the sentry of a formatted extraction leaves after skipping white space. */
  function SkipSpace(s: string): (r: string)
    ensures |r| <= |s|
    ensures r == [] || !IsSpace(r[0])
  {
    if s != [] && IsSpace(s[0]) then SkipSpace(s[1..]) else s
  }

  /** Length of the longest prefix of s without white space. */
  function WordLength(s: string): (n: nat)
    ensures n <= |s|
    ensures forall i :: 0 <= i < n ==> !IsSpace(s[i])
    ensures n == |s| || IsSpace(s[n])
  {
    if s == [] || IsSpace(s[0]) then 0 else 1 + WordLength(s[1..])
  }

  /** Length of the longest prefix of s made of decimal digits. */
  function DigitLength(s: string): (n: nat)
    ensures n <= |s|
    ensures AllDigits(s[..n])
    ensures n == |s| || !IsDigit(s[n])
  {
    if s == [] || !IsDigit(s[0]) then 0
    else
      var n := 1 + DigitLength(s[1..]);
      assert s[..n] == [s[0]] + s[1..][..n - 1];
      n
  }

  /** `st >> word` for a std::string word: the new stream and the word read. */
  function ReadWord(st: IStream): (r: (IStream, Option<string>))
    ensures r.1.Some? <==> r.0.ok
    ensures r.1.Some? ==> r.1.value != [] && |r.0.rest| < |st.rest|
    ensures |r.0.rest| <= |st.rest|
  {
    if !st.ok then (st, None)
    else
      var s := SkipSpace(st.rest);
      if s == [] then (IStream(s, false), None)
      else
        var n := WordLength(s);
        (IStream(s[n..], true), Some(s[..n]))
  }

  /** A sign the conversion of an integer accepts in front of its digits. */
  predicate IsSign(c: char) {
    c == '+' || c == '-'
  }

  /** `st >> x` for an unsigned 64-bit x: the new stream and the value stored in
      x.  With C++11 semantics a missing number stores 0 and an out-of-range one
      stores the maximum, both failing the stream; when the sentry fails (the
      stream has already failed or only white space is left) x is untouched
      (None).  As with strtoull, a leading '-' negates the value modulo 2^64, so
      "-1" reads as the maximum without failing. */
  function ReadU64(st: IStream): (r: (IStream, Option<nat>))
    ensures r.0.ok ==> r.1.Some? && r.1.value <= U64_MAX && |r.0.rest| < |st.rest|
    ensures r.1.Some? ==> r.1.value <= U64_MAX
    ensures |r.0.rest| <= |st.rest|
  {
    if !st.ok then (st, None)
    else
      var s := SkipSpace(st.rest);
      if s == [] then (IStream(s, false), None)
      else
        var d := if IsSign(s[0]) then s[1..] else s;
        var n := DigitLength(d);
        if n == 0 then (IStream(d, false), Some(0))
        else
          var v := DigitsValue(d[..n]);
          if v > U64_MAX then (IStream(d[n..], false), Some(U64_MAX))
          else (IStream(d[n..], true), Some(if s[0] == '-' then Sub64(0, v) else v))
  }

  /** Drops up to n characters of s, stopping after the first delim. */
  function DropAtMost(s: string, n: nat, delim: char): (r: string)
    ensures |r| <= |s|
  {
    if n == 0 || s == [] then s
    else if s[0] == delim then s[1..]
    else DropAtMost(s[1..], n - 1, delim)
  }

  /** Drops s up to and including the first delim, or all of it. */
  function DropThrough(s: string, delim: char): (r: string)
    ensures |r| <= |s|
    ensures delim !in s ==> r == []
  {
    if s == [] then s
    else if s[0] == delim then s[1..]
    else DropThrough(s[1..], delim)
  }

  /** `st.ignore(n, delim)`. */
  function IgnoreAtMost(st: IStream, n: nat, delim: char): (r: IStream)
    ensures r.ok == st.ok && |r.rest| <= |st.rest|
  {
    if st.ok then IStream(DropAtMost(st.rest, n, delim), true) else st
  }

  /** `st.ignore(numeric_limits<streamsize>::max(), delim)`. */
  function IgnoreThrough(st: IStream, delim: char): (r: IStream)
    ensures r.ok == st.ok && |r.rest| <= |st.rest|
  {
    if st.ok then IStream(DropThrough(st.rest, delim), true) else st
  }

  /** The values collected by `for (size_t t; st >> t; v.push_back(t));`. */
  function Numbers(st: IStream): (vs: seq<nat>)
    ensures forall i :: 0 <= i < |vs| ==> vs[i] <= U64_MAX
    decreases |st.rest|
  {
    var (st', x) := ReadU64(st);
    if st'.ok then [x.value] + Numbers(st') else []
  }

  /** The number loop itself, pushing each value it reads. */
  method ReadNumbers(st: IStream) returns (vs: seq<nat>)
    ensures vs == Numbers(st)
  {
    vs := [];
    var cur := st;
    var more := true;
    while more
      invariant more ==> vs + Numbers(cur) == Numbers(st)
      invariant !more ==> vs == Numbers(st)
      decreases |cur.rest|, more
    {
      var (next, x) := ReadU64(cur);
      if next.ok {
        vs := vs + [x.value];
        cur := next;
      } else {
        more := false;
      }
    }
  }

  // ---------------------------------------------------------------------
  // What the extractions do on text of a known shape.

  /** A word as `>>` delimits it: non-empty and free of white space. */
  predicate IsWord(w: string) {
    w != [] && forall i :: 0 <= i < |w| ==> !IsSpace(w[i])
  }

  /** Nothing after the leading white space of t can start a number. */
  predicate NoNumberNext(t: string) {
    var s := SkipSpace(t);
    s == [] || !(IsDigit(s[0]) || IsSign(s[0]))
  }

  /** The space-separated decimal rendering of a list of counters. */
  function Join(xs: seq<nat>): string {
    if xs == [] then "" else " " + NatToString(xs[0]) + Join(xs[1..])
  }

  lemma {:induction false} WordLengthOfWord(w: string, t: string)
    requires IsWord(w)
    requires t == [] || IsSpace(t[0])
    ensures WordLength(w + t) == |w|
    decreases |w|
  {
    if |w| > 1 {
      assert (w + t)[1..] == w[1..] + t;
      WordLengthOfWord(w[1..], t);
    } else {
      assert (w + t)[1..] == t;
    }
  }

  lemma {:induction false} DigitLengthOfNumber(n: nat, t: string)
    requires t == [] || !IsDigit(t[0])
    ensures DigitLength(NatToString(n) + t) == |NatToString(n)|
  {
    var s := NatToString(n);
    DigitLengthOfDigits(s, t);
  }

  lemma {:induction false} DigitLengthOfDigits(s: string, t: string)
    requires AllDigits(s)
    requires t == [] || !IsDigit(t[0])
    ensures DigitLength(s + t) == |s|
    decreases |s|
  {
    if s != [] {
      assert (s + t)[1..] == s[1..] + t;
      DigitLengthOfDigits(s[1..], t);
    }
  }

  /** A word followed by white space (or the end) is read whole. */
  lemma ReadWordOf(w: string, t: string, ok: bool)
    requires IsWord(w) && (t == [] || IsSpace(t[0]))
    ensures ReadWord(IStream(w + t, ok)) == if ok then (IStream(t, true), Some(w)) else (IStream(w + t, false), None)
  {
    if ok {
      WordLengthOfWord(w, t);
      assert (w + t)[..|w|] == w && (w + t)[|w|..] == t;
    }
  }

  /** A printed number followed by something that is not a digit is read back. */
  lemma ReadU64Of(n: nat, t: string)
    requires n <= U64_MAX
    requires t == [] || !IsDigit(t[0])
    ensures ReadU64(Open(NatToString(n) + t)) == (Open(t), Some(n))
  {
    var s := NatToString(n);
    DigitLengthOfNumber(n, t);
    assert (s + t)[..|s|] == s && (s + t)[|s|..] == t;
    DigitsValueOfNatToString(n);
  }

  /** Leading white space is skipped by every extraction. */
  lemma {:induction false} SkipSpaceOf(sp: string, t: string)
    requires forall i :: 0 <= i < |sp| ==> IsSpace(sp[i])
    requires t == [] || !IsSpace(t[0])
    ensures SkipSpace(sp + t) == t
    decreases |sp|
  {
    if sp != [] {
      assert (sp + t)[1..] == sp[1..] + t;
      SkipSpaceOf(sp[1..], t);
    }
  }

  /** The number loop stops at once when the next non-blank character cannot start a number. */
  lemma NumbersStop(t: string)
    requires NoNumberNext(t)
    ensures Numbers(Open(t)) == []
  {
    var r := SkipSpace(t);
    if r != [] {
      assert DigitLength(r) == 0;
    }
  }

  /** `>>` into a number only sees the text after the leading white space. */
  lemma ReadU64SeesPastSpace(a: string, b: string)
    requires SkipSpace(a) == SkipSpace(b)
    ensures ReadU64(Open(a)) == ReadU64(Open(b))
  {
  }

  /** A blank before a printed number changes nothing for `>>`. */
  lemma ReadU64AfterBlank(n: nat, tail: string)
    requires n <= U64_MAX
    requires tail == [] || !IsDigit(tail[0])
    ensures ReadU64(Open(" " + NatToString(n) + tail)) == (Open(tail), Some(n))
  {
    var d := NatToString(n);
    var u := d + tail;
    var a := " " + d + tail;
    assert a == " " + u;
    assert u[0] == d[0];
    SkipSpaceOf(" ", u);
    SkipSpaceOf([], u);
    assert [] + u == u;
    ReadU64SeesPastSpace(a, u);
    ReadU64Of(n, tail);
  }

  /** One step of the number loop over a blank and a printed counter. */
  lemma NumbersStep(n: nat, tail: string)
    requires n <= U64_MAX
    requires tail == [] || !IsDigit(tail[0])
    ensures Numbers(Open(" " + NatToString(n) + tail)) == [n] + Numbers(Open(tail))
  {
    ReadU64AfterBlank(n, tail);
  }

  lemma JoinStart(xs: seq<nat>, t: string)
    requires NoNumberNext(t)
    ensures Join(xs) + t == [] || !IsDigit((Join(xs) + t)[0])
  {
    if xs == [] {
      assert Join(xs) + t == t;
    } else {
      assert (Join(xs) + t)[0] == ' ';
    }
  }

  /** Printing one more counter in front adds it in front of what is read. */
  lemma NumbersCons(xs: seq<nat>, t: string)
    requires xs != [] && xs[0] <= U64_MAX
    requires NoNumberNext(t)
    ensures Numbers(Open(Join(xs) + t)) == [xs[0]] + Numbers(Open(Join(xs[1..]) + t))
  {
    JoinCons(xs, t);
    JoinStart(xs[1..], t);
    NumbersStep(xs[0], Join(xs[1..]) + t);
  }

  lemma JoinCons(xs: seq<nat>, t: string)
    requires xs != []
    ensures Join(xs) + t == " " + NatToString(xs[0]) + (Join(xs[1..]) + t)
  {
  }

  /** The number loop reads back exactly the counters Join printed, when
      what follows them does not start (after white space) with a digit. */
  lemma {:induction false} NumbersOfJoin(xs: seq<nat>, t: string)
    requires forall i :: 0 <= i < |xs| ==> xs[i] <= U64_MAX
    requires NoNumberNext(t)
    ensures Numbers(Open(Join(xs) + t)) == xs
    decreases |xs|
  {
    if xs == [] {
      assert Join(xs) + t == t;
      NumbersStop(t);
    } else {
      NumbersCons(xs, t);
      NumbersOfJoin(xs[1..], t);
      assert [xs[0]] + xs[1..] == xs;
    }
  }

  /** `ignore(max, '\n')` on a line's remainder lands on the next line. */
  lemma {:induction false} IgnoreLine(t: string, r: string)
    requires '\n' !in t
    ensures IgnoreThrough(Open(t + "\n" + r), '\n') == Open(r)
    decreases |t|
  {
    if t == [] {
      assert t + "\n" + r == "\n" + r;
    } else {
      assert (t + "\n" + r)[1..] == t[1..] + "\n" + r;
      IgnoreLine(t[1..], r);
    }
  }

  /** Two runs of digits each followed by a non-digit split a string alike. */
  lemma DigitsSplit(a: string, s: string, b: string, t: string)
    requires AllDigits(a) && AllDigits(b)
    requires s != [] && !IsDigit(s[0]) && t != [] && !IsDigit(t[0])
    requires a + s == b + t
    ensures a == b && s == t
  {
    DigitLengthOfDigits(a, s);
    DigitLengthOfDigits(b, t);
    assert (a + s)[..|a|] == a && (a + s)[|a|..] == s;
    assert (b + t)[..|b|] == b && (b + t)[|b|..] == t;
  }

  /** The number loop, like `>>`, only sees the text after leading white space. */
  lemma NumbersSeesPastSpace(a: string, b: string)
    requires SkipSpace(a) == SkipSpace(b)
    ensures Numbers(Open(a)) == Numbers(Open(b))
  {
    ReadU64SeesPastSpace(a, b);
  }

  /** `ignore(n, delim)` passes over a stretch without delim as long as n lasts. */
  lemma {:induction false} DropPast(p: string, r: string, n: nat, delim: char)
    requires delim !in p && |p| <= n
    ensures DropAtMost(p + r, n, delim) == DropAtMost(r, n - |p|, delim)
    decreases |p|
  {
    if p == [] {
      assert p + r == r;
      assert DropAtMost(p + r, n, delim) == DropAtMost(r, n - |p|, delim);
    } else {
      var pr := p + r;
      var tail := p[1..] + r;
      assert pr[0] == p[0] && p[0] != delim;
      assert pr[1..] == tail;
      DropPast(p[1..], r, n - 1, delim);
      calc {
        DropAtMost(pr, n, delim);
        DropAtMost(tail, n - 1, delim);
        DropAtMost(r, n - 1 - |p[1..]|, delim);
      }
      assert DropAtMost(p + r, n, delim) == DropAtMost(r, n - |p|, delim);
    }
  }

  /** A number after any single white-space character is read back, as after a blank. */
  lemma ReadU64AfterSpace(c: char, n: nat, tail: string)
    requires IsSpace(c) && n <= U64_MAX
    requires tail == [] || !IsDigit(tail[0])
    ensures ReadU64(Open([c] + (NatToString(n) + tail))) == (Open(tail), Some(n))
  {
    var d := NatToString(n);
    var u := d + tail;
    var a := [c] + u;
    assert u[0] == d[0];
    SkipSpaceOf([c], u);
    ReadU64SeesPastSpace(a, u);
    ReadU64Of(n, tail);
  }

  /** Signed values as the kernel prints them, each after a blank. */
  function JoinSigned(xs: seq<int>): string {
    if xs == [] then "" else " " + IntToString(xs[0]) + JoinSigned(xs[1..])
  }

  /** Each value as `>>` into an unsigned 64-bit integer stores it. */
  function Wrapped(xs: seq<int>): seq<nat> {
    if xs == [] then [] else [ToU64(xs[0])] + Wrapped(xs[1..])
  }

  /** Values whose magnitude fits in 64 bits. */
  predicate InU64Range(xs: seq<int>) {
    forall i :: 0 <= i < |xs| ==> -TWO_64 < xs[i] < TWO_64
  }

  /** A minus sign in front of the digits negates the value modulo 2^64. */
  lemma ReadU64Negative(n: nat, tail: string)
    requires 0 < n <= U64_MAX
    requires tail == [] || !IsDigit(tail[0])
    ensures ReadU64(Open("-" + NatToString(n) + tail)) == (Open(tail), Some(TWO_64 - n))
  {
    var d := NatToString(n);
    var body := d + tail;
    var u := "-" + d + tail;
    AppendAssoc("-", d, tail);
    assert u[0] == '-' && u[1..] == body;
    assert SkipSpace(u) == u;
    DigitLengthOfNumber(n, tail);
    assert body[..|d|] == d && body[|d|..] == tail;
    DigitsValueOfNatToString(n);
    assert DigitsValue(body[..|d|]) == n;
  }

  /** A printed signed value is read as its wrap-around modulo 2^64. */
  lemma ReadU64Signed(x: int, tail: string)
    requires -TWO_64 < x < TWO_64
    requires tail == [] || !IsDigit(tail[0])
    ensures ReadU64(Open(" " + IntToString(x) + tail)) == (Open(tail), Some(ToU64(x)))
  {
    if x >= 0 {
      ReadU64AfterBlank(x, tail);
    } else {
      var u := "-" + NatToString(-x) + tail;
      var a := " " + IntToString(x) + tail;
      assert a == " " + u;
      SkipSpaceOf(" ", u);
      ReadU64SeesPastSpace(a, u);
      ReadU64Negative(-x, tail);
    }
  }

  lemma JoinSignedStart(xs: seq<int>, t: string)
    requires NoNumberNext(t)
    ensures JoinSigned(xs) + t == [] || !IsDigit((JoinSigned(xs) + t)[0])
  {
    if xs == [] {
      assert JoinSigned(xs) + t == t;
    } else {
      assert (JoinSigned(xs) + t)[0] == ' ';
    }
  }

  /** The number loop reads back printed signed values, each wrapped to 64 bits. */
  lemma {:induction false} NumbersOfJoinSigned(xs: seq<int>, t: string)
    requires InU64Range(xs) && NoNumberNext(t)
    ensures Numbers(Open(JoinSigned(xs) + t)) == Wrapped(xs)
    decreases |xs|
  {
    if xs == [] {
      assert JoinSigned(xs) + t == t;
      NumbersStop(t);
    } else {
      var rest := JoinSigned(xs[1..]) + t;
      assert JoinSigned(xs) + t == " " + IntToString(xs[0]) + rest;
      JoinSignedStart(xs[1..], t);
      ReadU64Signed(xs[0], rest);
      NumbersOfJoinSigned(xs[1..], t);
    }
  }

  /** `ignore(max, delim)` stops right after the first delim. */
  lemma {:induction false} DropThroughPast(p: string, r: string, delim: char)
    requires delim !in p
    ensures DropThrough(p + ([delim] + r), delim) == r
    decreases |p|
  {
    if p == [] {
      assert p + ([delim] + r) == [delim] + r;
    } else {
      assert (p + ([delim] + r))[1..] == p[1..] + ([delim] + r);
      DropThroughPast(p[1..], r, delim);
    }
  }

  /** A word after a single white-space character is read back. */
  lemma ReadWordAfterSpace(c: char, w: string, t: string)
    requires IsSpace(c) && IsWord(w) && (t == [] || IsSpace(t[0]))
    ensures ReadWord(Open([c] + (w + t))) == (Open(t), Some(w))
  {
    var u := w + t;
    assert u[0] == w[0];
    SkipSpaceOf([c], u);
    ReadWordOf(w, t, true);
  }

  /** `ignore(max, '\n')` on a line without a newline lands at the next line. */
  lemma IgnoreRest(t: string, r: string)
    requires '\n' !in t
    ensures IgnoreThrough(Open(t + ("\n" + r)), '\n') == Open(r)
  {
    assert "\n" == ['\n'];
    DropThroughPast(t, r, '\n');
  }
}
