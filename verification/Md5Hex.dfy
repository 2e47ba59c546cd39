/** MD5 signatures as hexadecimal strings. */
module Md5Hex {
  import opened Words

  const HEX_STRING := "0123456789abcdef"
  const MD5_SIZE := 16

  function Min(x: int, y: int): int {
    if x < y then x else y
  }

  function Digit(k: nat): char
    requires k < 16
  {
    HEX_STRING[k]
  }

  /** strchr(HEX_STRING, c) - HEX_STRING */
  function IndexOf(c: char): nat {
    if '0' <= c <= '9' then (c - '0') as nat else if 'a' <= c <= 'f' then 10 + (c - 'a') as nat else 16
  }

  predicate IsHex(c: char) {
    c in HEX_STRING
  }

  lemma DigitOf(k: nat)
    requires k < 16
    ensures IsHex(Digit(k)) && IndexOf(Digit(k)) == k
  {
  }

  lemma IndexOfDigit(c: char)
    requires IsHex(c)
    ensures IndexOf(c) < 16 && Digit(IndexOf(c)) == c
  {
    var k :| 0 <= k < 16 && HEX_STRING[k] == c;
    DigitOf(k);
  }

  /** Two digits for each byte, the high one first. */
  function ToHex(s: seq<byte>): (h: string)
    ensures |h| == 2 * |s|
  {
    if s == [] then "" else
      var b := s[|s| - 1];
      ToHex(s[..|s| - 1]) + [Digit(b / 16), Digit(b % 16)]
  }

  predicate AllHex(h: string) {
    forall i | 0 <= i < |h| :: IsHex(h[i])
  }

  function FromHex(h: string): (s: seq<byte>)
    requires |h| % 2 == 0 && AllHex(h)
    ensures |s| == |h| / 2
  {
    if h == "" then [] else
      var n := |h|;
      IndexOfDigit(h[n - 2]);
      IndexOfDigit(h[n - 1]);
      FromHex(h[..n - 2]) + [16 * IndexOf(h[n - 2]) + IndexOf(h[n - 1])]
  }

  lemma EmptyHex()
    ensures ToHex([]) == "" && FromHex("") == []
  {
  }

  lemma ToHexNext(s: seq<byte>, high: nat, low: nat)
    requires high < 16 && low < 16
    ensures ToHex(s + [16 * high + low]) == ToHex(s) + [Digit(high), Digit(low)]
  {
    hide Digit;
    var b := 16 * high + low;
    assert b / 16 == high && b % 16 == low;
    var t := s + [b];
    assert t[..|t| - 1] == s;
  }

  lemma FromHexNext(h: string, high: char, low: char)
    requires |h| % 2 == 0 && AllHex(h) && IsHex(high) && IsHex(low)
    ensures |h + [high, low]| % 2 == 0 && AllHex(h + [high, low])
    ensures IndexOf(high) < 16 && IndexOf(low) < 16
    ensures FromHex(h + [high, low]) == FromHex(h) + [16 * IndexOf(high) + IndexOf(low)]
  {
    hide IndexOf, IsHex;
    IndexOfDigit(high);
    IndexOfDigit(low);
    assert (h + [high, low])[..|h|] == h;
  }

  lemma {:induction false} HexRoundTrip(s: seq<byte>)
    ensures AllHex(ToHex(s)) && FromHex(ToHex(s)) == s
  {
    hide IndexOf, IsHex, Digit, FromHex, ToHex;
    EmptyHex();
    if s != [] {
      var n := |s| - 1;
      var high, low := s[n] / 16, s[n] % 16;
      HexRoundTrip(s[..n]);
      DigitOf(high);
      DigitOf(low);
      FromHexNext(ToHex(s[..n]), Digit(high), Digit(low));
      ToHexNext(s[..n], high, low);
      assert s[..n] + [16 * high + low] == s;
    }
  }

  lemma {:induction false} StringRoundTrip(h: string)
    requires |h| % 2 == 0 && AllHex(h)
    ensures ToHex(FromHex(h)) == h
  {
    hide IndexOf, IsHex, Digit, FromHex, ToHex;
    EmptyHex();
    if h != "" {
      var n := |h| - 2;
      StringRoundTrip(h[..n]);
      IndexOfDigit(h[n]);
      IndexOfDigit(h[n + 1]);
      FromHexNext(h[..n], h[n], h[n + 1]);
      ToHexNext(FromHex(h[..n]), IndexOf(h[n]), IndexOf(h[n + 1]));
      assert h[..n] + [h[n], h[n + 1]] == h;
    }
  }

  /** The code of a lower-case hexadecimal digit. */
  function HexCode(k: nat): nat {
    if k < 10 then '0' as nat + k else 'a' as nat + (k - 10)
  }

  lemma DigitIs(k: nat)
    requires k < 16
    ensures Digit(k) as nat == HexCode(k)
  {
  }

  /** Two lower-case digits for each byte. */
  lemma {:induction false} ToHexAt(s: seq<byte>, i: nat)
    requires i < |s|
    ensures ToHex(s)[2 * i] as nat == HexCode(s[i] / 16) && ToHex(s)[2 * i + 1] as nat == HexCode(s[i] % 16)
  {
    hide Digit, HexCode;
    if i < |s| - 1 {
      ToHexAt(s[..|s| - 1], i);
    } else {
      DigitIs(s[i] / 16);
      DigitIs(s[i] % 16);
    }
  }

  lemma HexInFront(str: seq<char>, s: seq<byte>, n: nat)
    requires n <= |s| && 2 * n <= |str| && str[..2 * n] == ToHex(s[..n])
    ensures forall i | 0 <= i < n ::
              str[2 * i] as nat == HexCode(s[i] / 16) && str[2 * i + 1] as nat == HexCode(s[i] % 16)
  {
    hide HexCode, ToHex;
    forall i | 0 <= i < n
      ensures str[2 * i] as nat == HexCode(s[i] / 16) && str[2 * i + 1] as nat == HexCode(s[i] % 16)
    {
      ToHexAt(s[..n], i);
      assert str[2 * i] == str[..2 * n][2 * i] && str[2 * i + 1] == str[..2 * n][2 * i + 1];
    }
  }

  /** How many bytes `SigToString` prints in a string of `strLen` characters. */
  function Printed(strLen: int): nat {
    if strLen < 0 then 0 else Min(MD5_SIZE, strLen / 2)
  }

  /** md5_sig_to_string */
  method SigToString(signature: array<byte>, str: array<char>, strLen: int)
    requires signature.Length == MD5_SIZE && strLen <= str.Length
    modifies str
    ensures var n := 2 * Printed(strLen);
      && str[..n] == ToHex(signature[..Printed(strLen)])
      && (n < strLen ==> str[n] == '\0' && str[n + 1..] == old(str[n + 1..]))
      && (n >= strLen ==> str[n..] == old(str[n..]))
    ensures forall i | 0 <= i < 16 && 2 * i + 1 < strLen ::
              str[2 * i] as nat == HexCode(signature[i] / 16) && str[2 * i + 1] as nat == HexCode(signature[i] % 16)
  {
    hide Digit, HexCode, ToHex;
    EmptyHex();
    var p, sigP := 0, 0;
    while sigP < MD5_SIZE
      invariant 0 <= sigP <= Printed(strLen) && p == 2 * sigP
      invariant sigP < MD5_SIZE || sigP == Printed(strLen)
      invariant str[..p] == ToHex(signature[..sigP])
      invariant str[p..] == old(str[p..])
    {
      var high, low := signature[sigP] / 16, signature[sigP] % 16;
      if p + 1 >= strLen {
        break;
      }
      str[p] := Digit(high);
      str[p + 1] := Digit(low);
      ToHexNext(signature[..sigP], high, low);
      assert signature[..sigP + 1] == signature[..sigP] + [16 * high + low];
      p := p + 2;
      sigP := sigP + 1;
    }
    assert signature[..][..sigP] == signature[..sigP] && str[..][..p] == str[..p];
    HexInFront(str[..], signature[..], sigP);
    if p < strLen {
      str[p] := '\0';
    }
  }

  /** md5_sig_from_string, on the characters that the program can convert. */
  method SigFromString(signature: array<byte>, str: array<char>)
    requires signature.Length == MD5_SIZE && str.Length >= 2 * MD5_SIZE
    requires AllHex(str[..2 * MD5_SIZE])
    modifies signature
    ensures signature[..] == FromHex(old(str[..2 * MD5_SIZE]))
  {
    hide IndexOf, IsHex, FromHex;
    ghost var h := str[..2 * MD5_SIZE];
    EmptyHex();
    var p, sigP := 0, 0;
    while p < 2 * MD5_SIZE
      invariant 0 <= p <= 2 * MD5_SIZE && p == 2 * sigP
      invariant str[..2 * MD5_SIZE] == h
      invariant signature[..sigP] == FromHex(h[..p])
    {
      FromHexNext(h[..p], h[p], h[p + 1]);
      assert h[..p] + [h[p], h[p + 1]] == h[..p + 2];
      var high, low := IndexOf(str[p]), IndexOf(str[p + 1]);
      signature[sigP] := high * 16 + low;
      sigP := sigP + 1;
      p := p + 2;
    }
    assert h[..p] == h;
  }
}
