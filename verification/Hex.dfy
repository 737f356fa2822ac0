/** Hexadecimal text: digests, salts and segment numbers. */
module Hex {
  import opened Prelude

  function Digit(d: nat): (c: char)
    requires d < 16
  {
    if d < 10 then '0' + d as char else 'a' + (d - 10) as char
  }

  /** `char::to_digit(16)`. */
  function DigitValue(c: char): (r: Option<nat>)
    ensures r.Some? ==> r.value < 16
  {
    if '0' <= c <= '9' then Some((c - '0') as nat)
    else if 'a' <= c <= 'f' then Some((c - 'a') as nat + 10)
    else if 'A' <= c <= 'F' then Some((c - 'A') as nat + 10)
    else None
  }

  predicate AllHex(s: string) {
    forall i :: 0 <= i < |s| ==> DigitValue(s[i]).Some?
  }

  function LowerChar(c: char): char {
    if 'A' <= c <= 'Z' then (c - 'A') + 'a' else c
  }

  function Lower(s: string): (r: string)
    ensures |r| == |s|
  {
    seq(|s|, i requires 0 <= i < |s| => LowerChar(s[i]))
  }

  lemma DigitFacts(d: nat, c: char)
    ensures d < 16 ==> DigitValue(Digit(d)) == Some(d) && LowerChar(Digit(d)) == Digit(d)
    ensures DigitValue(c).Some? ==> Digit(DigitValue(c).value) == LowerChar(c)
  {
  }

  /** The digits, spelled out: written in lower case, read in either. */
  lemma DigitsSpelled(d: nat, c: char)
    requires d < 16
    ensures Digit(d) == "0123456789abcdef"[d]
    ensures DigitValue(c) == Some(d) <==> c == "0123456789abcdef"[d] || c == "0123456789ABCDEF"[d]
  {
  }

  /** Lower-casing, letter by letter: a capital moves to the letter 32 codes on, anything else stays. */
  lemma LowerSpelled(s: string, i: nat)
    requires i < |s|
    ensures Lower(s)[i] as int == if 'A' <= s[i] <= 'Z' then s[i] as int + 32 else s[i] as int
  {
  }

  // ---- byte strings ----

  function ToHex(bytes: seq<Byte>): (s: string)
    ensures |s| == 2 * |bytes|
  {
    if bytes == [] then "" else [Digit(bytes[0] / 16), Digit(bytes[0] % 16)] + ToHex(bytes[1..])
  }

  /** Byte `i` takes two lower-case digits, the high one first. */
  lemma {:induction false} ToHexSpelled(bytes: seq<Byte>, i: nat)
    requires i < |bytes|
    ensures ToHex(bytes)[2 * i] == "0123456789abcdef"[bytes[i] / 16]
    ensures ToHex(bytes)[2 * i + 1] == "0123456789abcdef"[bytes[i] % 16]
  {
    if i == 0 {
      DigitsSpelled(bytes[0] / 16, '0');
      DigitsSpelled(bytes[0] % 16, '0');
    } else {
      hide Digit;
      ToHexSpelled(bytes[1..], i - 1);
    }
  }

  function DecodeHex(s: string): Option<seq<Byte>> {
    if s == "" then Some([])
    else if |s| == 1 then None
    else
      match (DigitValue(s[0]), DigitValue(s[1]), DecodeHex(s[2..]))
      case (Some(hi), Some(lo), Some(rest)) => Some([hi * 16 + lo] + rest)
      case _ => None
  }

  /** Decoding accepts exactly the even-length hex strings. */
  lemma {:induction false} DecodeAccepts(s: string)
    ensures DecodeHex(s).Some? <==> |s| % 2 == 0 && AllHex(s)
  {
    if |s| > 1 {
      DecodeAccepts(s[2..]);
      AllHexSplit(s);
    }
  }

  lemma AllHexSplit(s: string)
    requires |s| > 1
    ensures AllHex(s) <==> DigitValue(s[0]).Some? && DigitValue(s[1]).Some? && AllHex(s[2..])
  {
    hide DigitValue;
    var t := s[2..];
    assert forall i :: 0 <= i < |t| ==> t[i] == s[i + 2];
    assert forall i :: 2 <= i < |s| ==> s[i] == t[i - 2];
  }

  /** Printing what was decoded gives the input in lower case. */
  lemma {:induction false} DecodePrints(s: string)
    requires DecodeHex(s).Some?
    ensures ToHex(DecodeHex(s).value) == Lower(s)
  {
    if |s| > 1 {
      DecodePrints(s[2..]);
      DigitFacts(0, s[0]);
      DigitFacts(0, s[1]);
      ToHexCons(DigitValue(s[0]).value, DigitValue(s[1]).value, DecodeHex(s[2..]).value);
      LowerSplit(s);
    }
  }

  lemma ToHexCons(hi: nat, lo: nat, rest: seq<Byte>)
    requires hi < 16 && lo < 16
    ensures ToHex([hi * 16 + lo] + rest) == [Digit(hi), Digit(lo)] + ToHex(rest)
  {
    var b := hi * 16 + lo;
    assert b / 16 == hi && b % 16 == lo;
    assert ([b] + rest)[1..] == rest;
  }

  lemma LowerSplit(s: string)
    requires |s| > 1
    ensures Lower(s) == [LowerChar(s[0]), LowerChar(s[1])] + Lower(s[2..])
  {
  }

  lemma {:induction false} ToHexIsLowerHex(b: seq<Byte>)
    ensures Lower(ToHex(b)) == ToHex(b) && AllHex(ToHex(b))
  {
    if b != [] {
      ToHexIsLowerHex(b[1..]);
      DigitFacts(b[0] / 16, '0');
      DigitFacts(b[0] % 16, '0');
      LowerHexAppend([Digit(b[0] / 16), Digit(b[0] % 16)], ToHex(b[1..]));
    }
  }

  lemma LowerHexAppend(s: string, t: string)
    ensures Lower(s + t) == Lower(s) + Lower(t)
    ensures AllHex(s) && AllHex(t) ==> AllHex(s + t)
  {
  }

  /** Printing then decoding loses nothing. */
  lemma {:induction false} DecodeToHex(b: seq<Byte>)
    ensures DecodeHex(ToHex(b)) == Some(b)
  {
    if b != [] {
      hide Digit, DigitValue;
      DecodeToHex(b[1..]);
      DigitFacts(b[0] / 16, '0');
      DigitFacts(b[0] % 16, '0');
      assert ToHex(b)[2..] == ToHex(b[1..]);
      assert b == [b[0] / 16 * 16 + b[0] % 16] + b[1..];
    }
  }

  /** Two ways of comparing a stored digest agree: on lower-cased text, or on decoded bytes in any case. */
  lemma CompareHex(hex: string, digest: seq<Byte>)
    requires AllHex(hex)
    ensures Lower(hex) == ToHex(digest) <==> DecodeHex(hex) == Some(digest)
  {
    hide DecodeHex, ToHex, AllHex, Lower;
    DecodeAccepts(hex);
    DecodeToHex(digest);
    if DecodeHex(hex).Some? {
      DecodePrints(hex);
      DecodeToHex(DecodeHex(hex).value);
    } else {
      assert |Lower(hex)| == |hex|;
    }
  }

  method HexDecode(s: string) returns (r: Option<seq<Byte>>)
    ensures r == DecodeHex(s)
  {
    hide DigitValue, DecodeHex, AllHex;
    DecodeAccepts(s);
    if |s| % 2 != 0 {
      return None;
    }
    var out: seq<Byte> := [];
    var i := 0;
    WithFront([], DecodeHex(s));
    assert s[0..] == s;
    while i < |s|
      invariant 0 <= i <= |s| && i % 2 == 0
      invariant DecodeHex(s) == Front(out, DecodeHex(s[i..]))
    {
      var hi, lo := DigitValue(s[i]), DigitValue(s[i + 1]);
      DecodeStep(s, i);
      if hi.None? || lo.None? {
        return None;
      }
      FrontFront(out, [hi.value * 16 + lo.value], DecodeHex(s[i + 2..]));
      out := out + [hi.value * 16 + lo.value];
      i := i + 2;
    }
    DecodeNothing();
    assert s[i..] == "";
    WithFront(out, Some([]));
    return Some(out);
  }

  function Front(done: seq<Byte>, rest: Option<seq<Byte>>): Option<seq<Byte>> {
    match rest
    case Some(b) => Some(done + b)
    case None => None
  }

  lemma WithFront(done: seq<Byte>, rest: Option<seq<Byte>>)
    ensures Front([], rest) == rest && Front(done, Some([])) == Some(done)
  {
    assert rest.Some? ==> [] + rest.value == rest.value;
    assert done + [] == done;
  }

  lemma DecodeNothing()
    ensures DecodeHex("") == Some([])
  {
  }

  lemma FrontFront(a: seq<Byte>, b: seq<Byte>, rest: Option<seq<Byte>>)
    ensures Front(a, Front(b, rest)) == Front(a + b, rest)
  {
    if rest.Some? {
      assert a + (b + rest.value) == a + b + rest.value;
    }
  }

  lemma DecodeStep(s: string, i: nat)
    requires i + 2 <= |s|
    ensures DecodeHex(s[i..]) ==
            if DigitValue(s[i]).None? || DigitValue(s[i + 1]).None? then None
            else Front([DigitValue(s[i]).value * 16 + DigitValue(s[i + 1]).value], DecodeHex(s[i + 2..]))
  {
    assert s[i..][2..] == s[i + 2..];
  }

  method PrintHex(bytes: seq<Byte>) returns (s: string)
    ensures s == ToHex(bytes)
  {
    hide Digit, ToHex;
    s := "";
    assert bytes[0..] == bytes;
    for i := 0 to |bytes|
      invariant ToHex(bytes) == s + ToHex(bytes[i..])
    {
      ToHexStep(bytes, i);
      s := s + [Digit(bytes[i] / 16), Digit(bytes[i] % 16)];
    }
  }

  lemma ToHexStep(bytes: seq<Byte>, i: nat)
    requires i < |bytes|
    ensures ToHex(bytes[i..]) == [Digit(bytes[i] / 16), Digit(bytes[i] % 16)] + ToHex(bytes[i + 1..])
  {
    assert bytes[i..][1..] == bytes[i + 1..];
  }

  // ---- segment numbers ----

  function Number(n: nat): (s: string)
    ensures |s| > 0 && AllHex(s)
  {
    DigitFacts(n % 16, '0');
    if n < 16 then [Digit(n)] else Number(n / 16) + [Digit(n % 16)]
  }

  /** The `{:08x}` format: at least eight digits, more when the number needs them. */
  function Padded(n: nat): (s: string)
    ensures |s| >= 8 && AllHex(s)
  {
    Zeros(8 - Min(8, |Number(n)|)) + Number(n)
  }

  function Zeros(n: nat): (s: string)
    ensures |s| == n && forall i :: 0 <= i < n ==> s[i] == '0'
  {
    seq(n, _ => '0')
  }

  function Value(s: string): nat
    requires AllHex(s)
  {
    if s == "" then 0 else 16 * Value(s[..|s| - 1]) + DigitValue(s[|s| - 1]).value
  }

  lemma {:induction false} NumberValue(n: nat, zeros: nat)
    ensures AllHex(Zeros(zeros) + Number(n)) && Value(Zeros(zeros) + Number(n)) == n
  {
    var s := Zeros(zeros) + Number(n);
    DigitFacts(n % 16, '0');
    if n < 16 {
      assert s[..|s| - 1] == Zeros(zeros);
      ZerosValue(zeros);
    } else {
      NumberValue(n / 16, zeros);
      assert s[..|s| - 1] == Zeros(zeros) + Number(n / 16);
    }
  }

  lemma {:induction false} ZerosValue(n: nat)
    ensures Value(Zeros(n)) == 0
  {
    if n > 0 {
      ZerosValue(n - 1);
      assert Zeros(n)[..n - 1] == Zeros(n - 1);
    }
  }

  function Pow16(n: nat): (p: nat)
    ensures p > 0
  {
    if n == 0 then 1 else 16 * Pow16(n - 1)
  }

  predicate LowerDigits(s: string) {
    forall i :: 0 <= i < |s| ==> s[i] in "0123456789abcdef"
  }

  lemma LowerDigitsAreHex(s: string)
    requires LowerDigits(s)
    ensures AllHex(s)
  {
    forall i | 0 <= i < |s|
      ensures DigitValue(s[i]).Some?
    {
      LowerDigit(s[i]);
    }
  }

  /** The standard eight-digit form of `n`: lower-case digits of that value, eight of them, or more without a leading
      zero. */
  predicate EightDigits(n: nat, s: string) {
    && LowerDigits(s)
    && AllHex(s) && Value(s) == n
    && (|s| == 8 || (|s| > 8 && s[0] != '0'))
  }

  /** How long a numeral is and how large it can be. */
  lemma {:induction false} ValueBounds(s: string)
    requires AllHex(s)
    ensures Value(s) < Pow16(|s|)
    ensures s != "" && s[0] != '0' ==> Pow16(|s| - 1) <= Value(s)
  {
    if s != "" {
      ValueBounds(s[..|s| - 1]);
      if |s| == 1 && s[0] != '0' {
        DigitsSpelled(0, s[0]);
      }
    }
  }

  lemma {:induction false} Pow16Grows(a: nat, b: nat)
    requires a <= b
    ensures Pow16(a) <= Pow16(b)
    decreases b
  {
    if a < b {
      Pow16Grows(a, b - 1);
    }
  }

  lemma Pow16Of8()
    ensures Pow16(8) == TWO_32
  {
    assert Pow16(4) == 16 * (16 * (16 * (16 * Pow16(0))));
    assert Pow16(8) == 16 * (16 * (16 * (16 * Pow16(4))));
  }

  /** Two lower-case numerals of one length and one value are the same. */
  lemma {:induction false} SameNumeral(s: string, t: string)
    requires |s| == |t| && LowerDigits(s) && LowerDigits(t) && AllHex(s) && AllHex(t) && Value(s) == Value(t)
    ensures s == t
  {
    hide Digit, DigitValue;
    if s != "" {
      var n := |s| - 1;
      LowerDigit(s[n]);
      LowerDigit(t[n]);
      SameNumeral(s[..n], t[..n]);
      assert s == s[..n] + [s[n]] && t == t[..n] + [t[n]];
    }
  }

  lemma LowerDigit(c: char)
    requires c in "0123456789abcdef"
    ensures DigitValue(c).Some? && Digit(DigitValue(c).value) == c
  {
    var d :| 0 <= d < 16 && "0123456789abcdef"[d] == c;
    DigitsSpelled(d, c);
  }

  lemma {:induction false} NumberSpelled(n: nat)
    ensures LowerDigits(Number(n)) && (n > 0 ==> Number(n)[0] != '0')
  {
    DigitsSpelled(n % 16, '0');
    if n >= 16 {
      NumberSpelled(n / 16);
    }
  }

  lemma PaddedIsEightDigits(n: nat)
    ensures EightDigits(n, Padded(n))
  {
    var zeros := 8 - Min(8, |Number(n)|);
    NumberValue(n, zeros);
    NumberSpelled(n);
    var s := Padded(n);
    forall i | 0 <= i < |s|
      ensures s[i] in "0123456789abcdef"
    {
      assert i >= zeros ==> s[i] == Number(n)[i - zeros];
    }
    if |s| > 8 {
      assert n >= 16 && s[0] == Number(n)[0];
    }
  }

  /** The eight-digit form is what its name says, and a number has no other: below 2^32 it has exactly eight digits,
      from there on more and no leading zero. */
  lemma PaddedIff(n: nat, s: string)
    ensures Padded(n) == s <==> EightDigits(n, s)
    ensures n < TWO_32 <==> |Padded(n)| == 8
  {
    hide Padded, Value, Pow16, LowerDigits, AllHex;
    PaddedIsEightDigits(n);
    Pow16Of8();
    DigitCount(n, Padded(n));
    if EightDigits(n, s) {
      DigitCount(n, s);
      SameLength(n, s, Padded(n));
      SameNumeral(s, Padded(n));
    }
  }

  lemma DigitCount(n: nat, s: string)
    requires EightDigits(n, s)
    ensures n < Pow16(|s|) && (|s| > 8 ==> Pow16(8) <= Pow16(|s| - 1) <= n)
  {
    hide Value, LowerDigits, AllHex;
    ValueBounds(s);
    if |s| > 8 {
      Pow16Grows(8, |s| - 1);
    }
  }

  lemma SameLength(n: nat, s: string, t: string)
    requires EightDigits(n, s) && EightDigits(n, t)
    ensures |s| == |t|
  {
    hide Value, LowerDigits, AllHex;
    DigitCount(n, s);
    DigitCount(n, t);
    if |s| < |t| {
      Pow16Grows(|s|, |t| - 1);
    }
    if |t| < |s| {
      Pow16Grows(|t|, |s| - 1);
    }
  }

  /** No two segment numbers print alike, however many digits they take. */
  lemma PaddedInjective(a: nat, b: nat)
    ensures Padded(a) == Padded(b) ==> a == b
  {
    NumberValue(a, 8 - Min(8, |Number(a)|));
    NumberValue(b, 8 - Min(8, |Number(b)|));
  }
}
