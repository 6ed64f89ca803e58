/** Vocabulary shared by the statistics readers and the threshold monitors:
    optional values, the fixed-width integer conversions of the C++ code,
    decimal rendering as std::to_string does it, and the (path, value) pairs
    that setXpath adds to the operational data tree. */
module Globals {

  datatype Option<+T> = None | Some(value: T)

  const TWO_31: int := 0x8000_0000
  const TWO_32: int := 0x1_0000_0000
  const TWO_64: int := 0x1_0000_0000_0000_0000
  const U64_MAX: nat := TWO_64 - 1

  /** Conversion of any integer to uint64_t / size_t: reduction modulo 2^64. */
  function ToU64(x: int): (r: nat)
    ensures r < TWO_64
    ensures (r - x) % TWO_64 == 0
    ensures 0 <= x < TWO_64 ==> r == x
  {
    x % TWO_64
  }

  /** Unsigned 64-bit subtraction a - b, which wraps when b > a. */
  function Sub64(a: nat, b: nat): (r: nat)
    requires a < TWO_64 && b < TWO_64
    ensures r < TWO_64
    ensures b <= a ==> r == a - b
    ensures a < b ==> r == TWO_64 + a - b
  {
    ToU64(a - b)
  }

  /** Conversion of an integer to a 32-bit int (two's complement wrap-around). */
  function ToInt32(x: int): (r: int)
    ensures -TWO_31 <= r < TWO_31
    ensures (r - x) % TWO_32 == 0
    ensures -TWO_31 <= x < TWO_31 ==> r == x
  {
    var m := x % TWO_32;
    if m < TWO_31 then m else m - TWO_32
  }

  predicate IsDigit(c: char) {
    '0' <= c <= '9'
  }

  predicate AllDigits(s: string) {
    forall i :: 0 <= i < |s| ==> IsDigit(s[i])
  }

  function DigitChar(d: nat): (c: char)
    requires d < 10
    ensures IsDigit(c) && c as int - '0' as int == d
  {
    ('0' as int + d) as char
  }

  /** std::to_string of an unsigned value: its shortest decimal digits. */
  function NatToString(n: nat): (s: string)
    ensures |s| > 0 && AllDigits(s)
    ensures |s| > 1 ==> s[0] != '0'
    decreases n
  {
    if n < 10 then [DigitChar(n)] else NatToString(n / 10) + [DigitChar(n % 10)]
  }

  /** std::to_string of a signed value. */
  function IntToString(x: int): (s: string)
    ensures |s| > 0
    ensures x < 0 <==> s[0] == '-'
  {
    if x < 0 then "-" + NatToString(-x) else NatToString(x)
  }

  /** The number a string of decimal digits denotes. */
  function DigitsValue(s: string): nat
    requires AllDigits(s)
  {
    if s == [] then 0 else DigitsValue(s[..|s| - 1]) * 10 + (s[|s| - 1] as int - '0' as int)
  }

  /** Reading back what NatToString wrote gives the number again. */
  lemma {:induction false} DigitsValueOfNatToString(n: nat)
    ensures DigitsValue(NatToString(n)) == n
    decreases n
  {
    if n >= 10 {
      var s := NatToString(n);
      assert s[..|s| - 1] == NatToString(n / 10);
      DigitsValueOfNatToString(n / 10);
    }
  }

  /** Different numbers are printed differently. */
  lemma NatToStringInjective(m: nat, n: nat)
    ensures NatToString(m) == NatToString(n) ==> m == n
  {
    DigitsValueOfNatToString(m);
    DigitsValueOfNatToString(n);
  }

  /** A value published into the operational data tree. */
  datatype Value =
    | Count(n: nat)                 // std::to_string of an integer counter
    | Text(s: string)               // a string leaf, published as it is
    | Share(part: nat, whole: nat)  // part / whole * 100, printed with two decimals
    | Amount(r: real)               // a long double or double, printed with two decimals

  /** One setXpath call: the node's path and its value. */
  datatype Entry = Entry(path: string, value: Value)

  /** The same entries under a common path prefix. */
  function Prefixed(prefix: string, out: seq<Entry>): (r: seq<Entry>)
    ensures |r| == |out|
    ensures forall i :: 0 <= i < |out| ==> r[i] == Entry(prefix + out[i].path, out[i].value)
  {
    if out == [] then [] else [Entry(prefix + out[0].path, out[0].value)] + Prefixed(prefix, out[1..])
  }

  /** The value published first under a path, if any. */
  function Lookup(out: seq<Entry>, path: string): Option<Value> {
    if out == [] then None
    else if out[0].path == path then Some(out[0].value)
    else Lookup(out[1..], path)
  }

  /** Nothing is found under a path no entry has. */
  lemma {:induction false} LookupMissing(out: seq<Entry>, path: string)
    requires forall i :: 0 <= i < |out| ==> out[i].path != path
    ensures Lookup(out, path) == None
    decreases |out|
  {
    if out != [] {
      assert out[0].path != path;
      LookupMissing(out[1..], path);
    }
  }

  /** What is found under a path is the value of an entry with that path. */
  lemma {:induction false} LookupFound(out: seq<Entry>, path: string)
    ensures Lookup(out, path).Some? ==> exists i :: 0 <= i < |out| && out[i] == Entry(path, Lookup(out, path).value)
    decreases |out|
  {
    if out != [] && out[0].path != path {
      LookupFound(out[1..], path);
      if Lookup(out, path).Some? {
        var i :| 0 <= i < |out| - 1 && out[1..][i] == Entry(path, Lookup(out, path).value);
        assert out[i + 1] == out[1..][i];
      }
    }
  }

  /** Looking a path up under a prefix is looking its remainder up. */
  lemma {:induction false} LookupPrefixed(prefix: string, out: seq<Entry>, leaf: string)
    ensures Lookup(Prefixed(prefix, out), prefix + leaf) == Lookup(out, leaf)
    decreases |out|
  {
    if out != [] {
      PrefixInjective(prefix, out[0].path, leaf);
      LookupPrefixed(prefix, out[1..], leaf);
    }
  }

  lemma PrefixInjective(prefix: string, a: string, b: string)
    ensures prefix + a == prefix + b <==> a == b
  {
    if prefix + a == prefix + b {
      assert a == (prefix + a)[|prefix|..];
    }
  }

  /** Lookup finds the first entry under a path. */
  lemma {:induction false} LookupFirst(out: seq<Entry>, path: string, k: nat)
    requires k < |out| && out[k].path == path
    requires forall i :: 0 <= i < k ==> out[i].path != path
    ensures Lookup(out, path) == Some(out[k].value)
    decreases k
  {
    if k > 0 {
      LookupFirst(out[1..], path, k - 1);
    }
  }

  /** Looking up in a concatenation looks in the first part, then in the second. */
  lemma {:induction false} LookupAppend(a: seq<Entry>, b: seq<Entry>, path: string)
    ensures Lookup(a + b, path) == if Lookup(a, path).Some? then Lookup(a, path) else Lookup(b, path)
    decreases |a|
  {
    if a != [] {
      assert (a + b)[0] == a[0];
      assert (a + b)[1..] == a[1..] + b;
      LookupAppend(a[1..], b, path);
    } else {
      assert a + b == b;
    }
  }

  /** The number a Share value stands for, before it is printed with two decimals. */
  function ShareValue(v: Value): real
    requires v.Share? && v.whole != 0
  {
    v.part as real / v.whole as real * 100.0
  }

  /** A part of a whole is between 0 and 100 percent of it. */
  lemma PercentBounds(part: nat, whole: nat)
    requires whole != 0
    ensures 0.0 <= part as real / whole as real * 100.0
    ensures part <= whole ==> part as real / whole as real * 100.0 <= 100.0
  {
    var q := part as real / whole as real;
    assert q * whole as real == part as real;
    if part <= whole {
      assert q <= 1.0 by {
        if q > 1.0 {
          assert q * whole as real > whole as real;
        }
      }
    }
  }

  lemma AppendAssoc<T>(a: seq<T>, b: seq<T>, c: seq<T>)
    ensures (a + b) + c == a + (b + c)
  {
  }

  /** Prefixing distributes over concatenation. */
  lemma {:induction false} PrefixedAppend(prefix: string, a: seq<Entry>, b: seq<Entry>)
    ensures Prefixed(prefix, a + b) == Prefixed(prefix, a) + Prefixed(prefix, b)
  {
    var l, r := Prefixed(prefix, a + b), Prefixed(prefix, a) + Prefixed(prefix, b);
    assert |l| == |r|;
    forall i | 0 <= i < |l|
      ensures l[i] == r[i]
    {
      if i < |a| {
        assert (a + b)[i] == a[i];
      } else {
        assert (a + b)[i] == b[i - |a|];
      }
    }
  }
}
