/** `string_to_bit`: a bit-string value written in hexadecimal notation
    (`0x...`) is rewritten as a binary numeral; any other value is kept. */
module BitString {
  import opened Common

  predicate IsHexDigit(c: char)
  {
    '0' <= c <= '9' || 'a' <= c <= 'f' || 'A' <= c <= 'F'
  }

  function HexDigitValue(c: char): (r: nat)
    requires IsHexDigit(c)
    ensures r < 16
  {
    if '0' <= c <= '9' then c as int - '0' as int
    else if 'a' <= c <= 'f' then c as int - 'a' as int + 10
    else c as int - 'A' as int + 10
  }

  predicate IsHexText(s: string)
  {
    forall i :: 0 <= i < |s| ==> IsHexDigit(s[i])
  }

  /** The value of a run of hexadecimal digits; 0 for none. */
  function HexValue(s: string): nat
    requires IsHexText(s)
  {
    if s == [] then 0 else 16 * HexValue(s[..|s| - 1]) + HexDigitValue(s[|s| - 1])
  }

  /** The run of hexadecimal digits at the head of `s`: the part `String#hex`
      reads. */
  function LeadingHex(s: string): (r: string)
    ensures |r| <= |s| && r == s[..|r|] && IsHexText(r)
    ensures |r| < |s| ==> !IsHexDigit(s[|r|])
  {
    if s != [] && IsHexDigit(s[0]) then [s[0]] + LeadingHex(s[1..]) else []
  }

  predicate IsBinary(s: string)
  {
    forall i :: 0 <= i < |s| ==> s[i] == '0' || s[i] == '1'
  }

  /** A binary numeral as `Integer#to_s(2)` writes one: at least one digit
      and no leading zero unless it is `0` itself. */
  predicate IsCanonicalBinary(s: string)
  {
    s != [] && IsBinary(s) && (s[0] == '0' ==> s == "0")
  }

  function BinValue(s: string): nat
    requires IsBinary(s)
  {
    if s == [] then 0 else 2 * BinValue(s[..|s| - 1]) + (if s[|s| - 1] == '1' then 1 else 0)
  }

  function BitChar(b: nat): char
    requires b < 2
  {
    if b == 0 then '0' else '1'
  }

  /** `Integer#to_s(2)` for a non-negative integer: the canonical binary
      numeral whose value is `n`. */
  function ToBinary(n: nat): (r: string)
    ensures IsCanonicalBinary(r) && BinValue(r) == n
  {
    if n < 2 then [BitChar(n)]
    else
      var r := ToBinary(n / 2) + [BitChar(n % 2)];
      assert r[..|r| - 1] == ToBinary(n / 2);
      r
  }

  /** `/^0x/i`: `^` matches at the start of the text and after every line
      feed, so the prefix may begin any line. */
  predicate HexPrefixAt(s: string, i: nat)
    ensures HexPrefixAt(s, i) <==>
              (i == 0 || (i <= |s| && s[i - 1] == '\n')) && i + 2 <= |s| && Upcase(s[i..i + 2]) == "0X"
  {
    if i + 2 <= |s| then
      UpcasePair(s[i], s[i + 1]);
      assert s[i..i + 2] == [s[i], s[i + 1]];
      (i == 0 || s[i - 1] == '\n') && s[i] == '0' && (s[i + 1] == 'x' || s[i + 1] == 'X')
    else false
  }

  /** The `/i` flag: a two-character text upcases to `0X` exactly when it is
      `0x` or `0X`. */
  lemma UpcasePair(a: char, b: char)
    ensures Upcase([a, b]) == "0X" <==> a == '0' && (b == 'x' || b == 'X')
  {
    assert [a, b][1..] == [b];
    assert Upcase([a, b]) == [UpcaseChar(a), UpcaseChar(b)];
  }

  predicate HasHexPrefix(s: string)
  {
    exists i: nat :: i < |s| && HexPrefixAt(s, i)
  }

  /** `string_to_bit` on a text: after a `0x` prefix, the hexadecimal digits
      from the third character on become the canonical binary numeral of the
      same value; a text without the prefix is returned as it is. */
  function BitText(value: string): (r: string)
    ensures HasHexPrefix(value) ==>
              |value| >= 2 && IsCanonicalBinary(r) && BinValue(r) == HexValue(LeadingHex(value[2..]))
    ensures !HasHexPrefix(value) ==> r == value
  {
    if HasHexPrefix(value) then ToBinary(HexValue(LeadingHex(value[2..]))) else value
  }

  /** `string_to_bit`: the pattern only matches a String, so `nil` and any
      other object are returned as they are. */
  function StringToBit<X>(v: Dyn<string, X>): (r: Dyn<string, X>)
    ensures v.Nil? ==> r.Nil?
    ensures v.Other? ==> r == Other(v.other)
    ensures v.Is? ==> r == Is(BitText(v.value))
  {
    match v
    case Nil => Nil
    case Other(x) => Other(x)
    case Is(s) => Is(BitText(s))
  }

  // ---------------------------------------------------------------------
  // Properties
  // ---------------------------------------------------------------------

  lemma {:induction false} LeadingHexOfHex(h: string, rest: string)
    requires IsHexText(h)
    requires rest == [] || !IsHexDigit(rest[0])
    ensures LeadingHex(h + rest) == h
  {
    if h == [] {
      assert h + rest == rest;
    } else {
      assert (h + rest)[1..] == h[1..] + rest;
      LeadingHexOfHex(h[1..], rest);
      assert [h[0]] + h[1..] == h;
    }
  }

  /** A value in hexadecimal notation is read as the binary numeral of the
      number its digits spell, whatever follows the digits. */
  lemma HexNotation(h: string, rest: string)
    requires IsHexText(h) && h != []
    requires rest == [] || !(IsHexDigit(rest[0]) || rest[0] in "_xX")
    ensures BitText("0x" + h + rest) == ToBinary(HexValue(h))
  {
    var value := "0x" + h + rest;
    assert HexPrefixAt(value, 0);
    assert value[2..] == h + rest;
    LeadingHexOfHex(h, rest);
  }

  /** A non-empty binary numeral starting with `1` has a positive value. */
  lemma {:induction false} LeadingOnePositive(s: string)
    requires s != [] && IsBinary(s) && s[0] == '1'
    ensures BinValue(s) >= 1
  {
    if |s| > 1 {
      var init := s[..|s| - 1];
      assert init[0] == '1';
      LeadingOnePositive(init);
    }
  }

  /** Every canonical binary numeral is what `to_s(2)` writes for its value,
      so the conversion is onto the canonical numerals. */
  lemma {:induction false} ToBinaryOfValue(s: string)
    requires IsCanonicalBinary(s)
    ensures ToBinary(BinValue(s)) == s
  {
    if |s| > 1 {
      var init := s[..|s| - 1];
      assert init[0] == s[0] == '1';
      assert IsBinary(init) by {
        forall i | 0 <= i < |init| ensures init[i] == '0' || init[i] == '1' {
          assert init[i] == s[i];
        }
      }
      LeadingOnePositive(init);
      ToBinaryOfValue(init);
      var b := if s[|s| - 1] == '1' then 1 else 0;
      ToBinaryStep(BinValue(init), b);
      assert BitChar(b) == s[|s| - 1];
      assert init + [s[|s| - 1]] == s;
    } else {
      assert s == [s[0]];
    }
  }

  /** One more binary digit after a positive value. */
  lemma ToBinaryStep(v: nat, b: nat)
    requires v >= 1 && b < 2
    ensures ToBinary(2 * v + b) == ToBinary(v) + [BitChar(b)]
  {
    var n := 2 * v + b;
    assert n / 2 == v && n % 2 == b;
  }

  /** The conversion does not keep the bit length the hexadecimal digits
      stand for: leading zero bits are dropped. */
  lemma LeadingZerosDropped()
    ensures BitText("0x0f") == "1111"
  {
    HexNotation("0f", "");
    assert "0x" + "0f" + "" == "0x0f";
    HexValueOf0f();
    ToBinaryOf15();
  }

  lemma HexValueOf0f()
    ensures HexValue("0f") == 15
  {
    assert "0f"[..1] == "0";
    assert "0"[..0] == [];
  }

  lemma ToBinaryOf15()
    ensures ToBinary(15) == "1111"
  {
    assert ToBinary(1) == "1";
    assert ToBinary(3) == "11";
    assert ToBinary(7) == "111";
  }

  /** A `0x` prefix at the start of a later line also selects hexadecimal
      notation, and then the digits are still read from the third
      character of the whole value. */
  lemma PrefixOnLaterLine()
    ensures BitText("abc\n0x1") == "1100"
  {
    var v := "abc\n0x1";
    assert HexPrefixAt(v, 4);
    assert v[2..] == "c\n0x1";
    assert LeadingHex("c\n0x1") == "c" by {
      assert "c\n0x1"[1..] == "\n0x1";
      assert LeadingHex("\n0x1") == [];
    }
    assert HexValue("c") == 12 by { assert "c"[..0] == []; }
    assert ToBinary(12) == "1100" by {
      assert ToBinary(1) == "1";
      assert ToBinary(3) == "11";
      assert ToBinary(6) == "110";
    }
  }
}
