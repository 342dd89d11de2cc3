/** Values and text helpers shared by the codecs of the PostgreSQL `Cast` module. */
module Common {

  datatype Option<T> = None | Some(value: T)

  /** A Ruby argument whose class a codec dispatches on: `nil`, an instance
      of the class the codec converts (`Is`), or any other object (`Other`),
      which the codec hands back as it got it. */
  datatype Dyn<T, X> = Nil | Is(value: T) | Other(other: X)

  /** Ruby's regular-expression class `\s`: space, tab, line feed,
      vertical tab, form feed and carriage return. */
  predicate IsSpace(c: char)
  {
    c == ' ' || c == '\t' || c == '\n' || c == '\U{0B}' || c == '\U{0C}' || c == '\r'
  }

  /** Number of occurrences of `c` in `s`. */
  function Count(s: string, c: char): nat
  {
    if s == [] then 0 else (if s[0] == c then 1 else 0) + Count(s[1..], c)
  }

  lemma {:induction false} CountAppend(a: string, b: string, c: char)
    ensures Count(a + b, c) == Count(a, c) + Count(b, c)
  {
    if a != [] {
      assert (a + b)[1..] == a[1..] + b;
      CountAppend(a[1..], b, c);
    } else {
      assert a + b == b;
    }
  }

  /** Ruby's `parts.join(sep)` for a one-character separator. */
  function Join(parts: seq<string>, sep: char): (r: string)
    ensures parts == [] ==> r == []
    ensures parts != [] ==> |parts[0]| <= |r| && r[..|parts[0]|] == parts[0]
    ensures |parts| > 1 ==> |parts[0]| < |r| && r[|parts[0]|] == sep
  {
    if |parts| == 0 then ""
    else if |parts| == 1 then parts[0]
    else parts[0] + [sep] + Join(parts[1..], sep)
  }

  /** A joined text ends with the last part. */
  lemma {:induction false} JoinLast(parts: seq<string>, sep: char)
    requires parts != []
    ensures var last := parts[|parts| - 1]; |last| <= |Join(parts, sep)| && Join(parts, sep)[|Join(parts, sep)| - |last|..] == last
  {
    if |parts| > 1 {
      JoinLast(parts[1..], sep);
      assert parts[1..][|parts| - 2] == parts[|parts| - 1];
    }
  }

  lemma JoinCons(parts: seq<string>, sep: char)
    requires |parts| > 1
    ensures Join(parts, sep) == parts[0] + ([sep] + Join(parts[1..], sep))
  {
  }

  lemma JoinLength(parts: seq<string>, sep: char)
    requires |parts| > 0
    ensures |Join(parts, sep)| >= |parts[0]|
  {
  }

  /** A backslash put before every `"` and every `\`: the effect of
      `gsub(/(["\\])/, '\\\\\1')` in the hstore escaper. */
  function Escaped(s: string): (r: string)
    ensures |r| == |s| + Count(s, '"') + Count(s, '\\')
  {
    if s == [] then [] else EscapeChar(s[0]) + Escaped(s[1..])
  }

  function EscapeChar(c: char): string
  {
    if c == '"' || c == '\\' then ['\\', c] else [c]
  }

  /** `gsub(/\\(.)/, '\1')`: a backslash followed by any character other
      than a line feed (`.` does not match one) is dropped and the character
      kept; every other character, including a lone trailing backslash, stays. */
  function Unescaped(s: string): (r: string)
    ensures |r| <= |s|
    ensures Count(s, '\\') == 0 ==> r == s
  {
    if s == [] then []
    else if |s| >= 2 && s[0] == '\\' && s[1] != '\n' then [s[1]] + Unescaped(s[2..])
    else [s[0]] + Unescaped(s[1..])
  }

  /** Unescaping exactly undoes escaping, for every text. */
  lemma {:induction false} UnescapedEscaped(s: string)
    ensures Unescaped(Escaped(s)) == s
  {
    if s != [] {
      UnescapedEscaped(s[1..]);
      UnescapedEscapeChar(s[0], Escaped(s[1..]));
    }
  }

  lemma UnescapedEscapeChar(c: char, tail: string)
    ensures Unescaped(EscapeChar(c) + tail) == [c] + Unescaped(tail)
  {
    var t := EscapeChar(c) + tail;
    if c == '"' || c == '\\' {
      assert t[0] == '\\' && t[1] == c && t[2..] == tail;
    } else {
      assert t[0] == c && t[1..] == tail;
    }
  }

  /** ASCII upper-casing of one character. */
  function UpcaseChar(c: char): (r: char)
    ensures !('a' <= r <= 'z')
    ensures r != c <==> 'a' <= c <= 'z'
    ensures 'a' <= c <= 'z' ==> r as int == c as int - 32
  {
    if 'a' <= c <= 'z' then (c as int - 32) as char else c
  }

  /** ASCII `String#upcase`. */
  function Upcase(s: string): (r: string)
    ensures |r| == |s|
    ensures forall i :: 0 <= i < |s| ==> r[i] == UpcaseChar(s[i])
  {
    if s == [] then [] else [UpcaseChar(s[0])] + Upcase(s[1..])
  }

  /** Upcasing twice is upcasing once. */
  lemma UpcaseIdempotent(s: string)
    ensures Upcase(Upcase(s)) == Upcase(s)
  {
    assert forall i :: 0 <= i < |s| ==> UpcaseChar(UpcaseChar(s[i])) == UpcaseChar(s[i]);
  }

  /** The SQL null sentinel `NULL`, in any letter case. */
  predicate IsNullWord(t: string)
  {
    |t| == 4 && UpcaseChar(t[0]) == 'N' && UpcaseChar(t[1]) == 'U'
    && UpcaseChar(t[2]) == 'L' && UpcaseChar(t[3]) == 'L'
  }

  /** The sentinel test is Ruby's `t.upcase == 'NULL'`. */
  lemma NullWordIsUpcase(t: string)
    ensures IsNullWord(t) <==> Upcase(t) == "NULL"
  {
    if |t| == 4 {
      var t1, t2, t3 := t[1..], t[2..], t[3..];
      assert t1[1..] == t2 && t2[1..] == t3 && t3[1..] == [];
      assert Upcase(t3) == [UpcaseChar(t[3])];
      assert Upcase(t2) == [UpcaseChar(t[2]), UpcaseChar(t[3])];
      assert Upcase(t1) == [UpcaseChar(t[1]), UpcaseChar(t[2]), UpcaseChar(t[3])];
      assert Upcase(t) == [UpcaseChar(t[0]), UpcaseChar(t[1]), UpcaseChar(t[2]), UpcaseChar(t[3])];
    }
  }
}
