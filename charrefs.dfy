/** Python's `text.encode('ascii', 'xmlcharrefreplace')`: every ASCII character becomes
    its own byte, every other character `c` the bytes of `&#N;` with N the decimal code
    point of `c`. A decoder for the encoded form is given beside it as its partner. */
module CharRefs {
  import opened NotebookData

  type Byte = b: int | 0 <= b < 256

  const Ampersand: Byte := 38
  const Hash: Byte := 35
  const Semicolon: Byte := 59

  predicate IsDigit(b: Byte) {
    48 <= b <= 57
  }

  predicate AllDigits(d: seq<Byte>) {
    forall i :: 0 <= i < |d| ==> IsDigit(d[i])
  }

  /** The number a run of decimal digits spells. */
  function ValueOf(d: seq<Byte>): nat
    requires AllDigits(d)
    decreases |d|
  {
    if |d| == 0 then 0 else ValueOf(d[..|d| - 1]) * 10 + (d[|d| - 1] - 48)
  }

  /** The decimal digits of `n`, without leading zeros, as ASCII bytes. */
  function Digits(n: nat): (d: seq<Byte>)
    ensures |d| >= 1 && AllDigits(d)
    ensures ValueOf(d) == n
    decreases n
  {
    if n < 10 then [48 + n]
    else
      var d := Digits(n / 10) + [48 + n % 10];
      assert d[..|d| - 1] == Digits(n / 10);
      d
  }

  /** One character under `xmlcharrefreplace`. */
  function EncodeChar(c: char): (r: seq<Byte>)
    ensures |r| >= 1 && forall i :: 0 <= i < |r| ==> r[i] < 128
  {
    if (c as int) < 128 then [c as int]
    else [Ampersand, Hash] + Digits(c as int) + [Semicolon]
  }

  /** `s.encode('ascii', 'xmlcharrefreplace')`. The result is pure ASCII and at least as
      long as the text. */
  function Encode(s: string): (r: seq<Byte>)
    ensures forall i :: 0 <= i < |r| ==> r[i] < 128
    ensures |r| >= |s|
    decreases |s|
  {
    if |s| == 0 then [] else EncodeChar(s[0]) + Encode(s[1..])
  }

  /** Text that is already ASCII is encoded byte for byte. */
  lemma {:induction false} EncodeAscii(s: string)
    requires forall i :: 0 <= i < |s| ==> (s[i] as int) < 128
    ensures |Encode(s)| == |s|
    ensures forall i :: 0 <= i < |s| ==> Encode(s)[i] == s[i] as int
    decreases |s|
  {
    if |s| > 0 {
      EncodeAscii(s[1..]);
    }
  }

  /** Encoding works character by character, so it distributes over concatenation. */
  lemma {:induction false} EncodeAppend(a: string, b: string)
    ensures Encode(a + b) == Encode(a) + Encode(b)
    decreases |a|
  {
    if |a| > 0 {
      assert (a + b)[0] == a[0] && (a + b)[1..] == a[1..] + b;
      EncodeAppend(a[1..], b);
    } else {
      assert a + b == b;
    }
  }

  /** The first index at or after `i` that does not hold a digit. */
  function DigitRun(b: seq<Byte>, i: nat): (j: nat)
    requires i <= |b|
    ensures i <= j <= |b| && AllDigits(b[i..j])
    ensures j < |b| ==> !IsDigit(b[j])
    decreases |b| - i
  {
    if i < |b| && IsDigit(b[i]) then
      var j := DigitRun(b, i + 1);
      assert b[i..j] == [b[i]] + b[i + 1..j];
      j
    else i
  }

  /** A value that names a Unicode scalar, i.e. a Dafny `char`. */
  predicate IsScalar(n: nat) {
    n < 0xD800 || (0xE000 <= n < 0x11_0000)
  }

  /** Reads ASCII text in which `&#N;` stands for the character with code point N. A lone
      `&`, a byte above 127 or a reference to no character makes it fail. */
  function Decode(b: seq<Byte>): Option<string>
    decreases |b|
  {
    if |b| == 0 then Some("")
    else if b[0] == Ampersand then
      if |b| >= 2 && b[1] == Hash then
        var j := DigitRun(b, 2);
        if j > 2 && j < |b| && b[j] == Semicolon && IsScalar(ValueOf(b[2..j])) then
          var rest := Decode(b[j + 1..]);
          if rest.Some? then Some([ValueOf(b[2..j]) as char] + rest.value) else None
        else None
      else None
    else if b[0] < 128 then
      var rest := Decode(b[1..]);
      if rest.Some? then Some([b[0] as char] + rest.value) else None
    else None
  }

  /** The decoder reads one encoded character other than `&` back, whatever follows it. */
  lemma DecodeEncodeChar(c: char, tail: seq<Byte>)
    requires c != '&'
    ensures Decode(EncodeChar(c) + tail)
         == if Decode(tail).Some? then Some([c] + Decode(tail).value) else None
  {
    var b := EncodeChar(c) + tail;
    if (c as int) < 128 {
      assert b[0] == c as int && b[0] != Ampersand;
      assert b[1..] == tail;
    } else {
      var d := Digits(c as int);
      var k := 2 + |d|;
      assert b == [Ampersand, Hash] + d + [Semicolon] + tail;
      assert b[2..k] == d;
      assert b[k] == Semicolon;
      DigitRunStops(b, 2, k);
      assert b[k + 1..] == tail;
      assert (ValueOf(d) as char) == c;
    }
  }

  /** For text without `&`, decoding the encoded bytes gives the text back: the encoding
      loses nothing. */
  lemma {:induction false} DecodeEncode(s: string)
    requires '&' !in s
    ensures Decode(Encode(s)) == Some(s)
    decreases |s|
  {
    if |s| > 0 {
      assert '&' !in s[1..] by {
        forall k | 0 <= k < |s[1..]| ensures s[1..][k] != '&' { assert s[1..][k] == s[k + 1]; }
      }
      DecodeEncode(s[1..]);
      assert Encode(s) == EncodeChar(s[0]) + Encode(s[1..]);
      DecodeEncodeChar(s[0], Encode(s[1..]));
      assert [s[0]] + s[1..] == s;
    }
  }

  /** `DigitRun` stops at the first non-digit after a run of digits. */
  lemma {:induction false} DigitRunStops(b: seq<Byte>, i: nat, k: nat)
    requires i <= k < |b| && AllDigits(b[i..k]) && !IsDigit(b[k])
    ensures DigitRun(b, i) == k
    decreases k - i
  {
    if i < k {
      assert IsDigit(b[i..k][0]);
      assert b[i + 1..k] == b[i..k][1..];
      DigitRunStops(b, i + 1, k);
    }
  }
}
