/** `array_to_string` and `quote_and_escape`: a Ruby Array written as a
    PostgreSQL array literal (section 8.15.6 of the PostgreSQL manual), and a
    reader for one level of that syntax that states what the database gets. */
module ArrayLiteral {
  import opened Common

  /** An element of the Ruby Array being written: a String or any other object. */
  datatype Element<E> = Str(s: string) | Obj(obj: E)

  /** What the adapter's type caster hands back: text, or a Numeric written
      by its `to_s`. */
  datatype Casted = Text(text: string) | Numeric(digits: string)

  /** How `join` writes a cast result. */
  function CastedText(c: Casted): string
  {
    match c
    case Text(t) => t
    case Numeric(d) => d
  }

  // ---------------------------------------------------------------------
  // Writing
  // ---------------------------------------------------------------------

  /** `gsub(/\\/, ARRAY_ESCAPE)`: ARRAY_ESCAPE holds four backslashes, and a
      gsub replacement reads `\\` as one backslash, so each backslash becomes two. */
  function DoubleBackslashes(s: string): (r: string)
    ensures |r| == |s| + Count(s, '\\')
    ensures Unescaped(r) == s
  {
    if s == [] then []
    else
      var tail := DoubleBackslashes(s[1..]);
      UnescapedDoubleBackslash(s[0], tail);
      assert [s[0]] + s[1..] == s;
      DoubleBackslash(s[0]) + tail
  }

  lemma UnescapedDoubleBackslash(c: char, tail: string)
    ensures Unescaped(DoubleBackslash(c) + tail) == [c] + Unescaped(tail)
  {
    var t := DoubleBackslash(c) + tail;
    if c == '\\' {
      assert t[0] == '\\' && t[1] == c && t[2..] == tail;
    } else {
      assert t[0] == c && t[1..] == tail;
    }
  }

  function DoubleBackslash(c: char): string
  {
    if c == '\\' then ['\\', '\\'] else [c]
  }

  /** `gsub!(/"/, "\\\"")`: a backslash before each double quote. */
  function EscapeQuotes(s: string): (r: string)
    ensures |r| == |s| + Count(s, '"')
    ensures Count(s, '\\') == 0 ==> r == Escaped(s)
  {
    if s == [] then [] else EscapeQuote(s[0]) + EscapeQuotes(s[1..])
  }

  function EscapeQuote(c: char): string
  {
    if c == '"' then ['\\', '"'] else [c]
  }

  lemma {:induction false} EscapeQuotesAppend(a: string, b: string)
    ensures EscapeQuotes(a + b) == EscapeQuotes(a) + EscapeQuotes(b)
  {
    var ab := a + b;
    if a == [] {
      assert ab == b;
    } else {
      assert ab[0] == a[0] && ab[1..] == a[1..] + b;
      EscapeQuotesAppend(a[1..], b);
      assert EscapeQuotes(ab) == EscapeQuote(a[0]) + EscapeQuotes(ab[1..]);
    }
  }

  /** The two passes of `quote_and_escape` together put one backslash before
      every backslash and every double quote: the hstore escaping. */
  lemma {:induction false} ArrayEscapeIsEscaped(s: string)
    ensures EscapeQuotes(DoubleBackslashes(s)) == Escaped(s)
  {
    if s != [] {
      ArrayEscapeIsEscaped(s[1..]);
      var head := DoubleBackslash(s[0]);
      EscapeQuotesAppend(head, DoubleBackslashes(s[1..]));
      assert EscapeQuotes(head) == EscapeChar(s[0]) by {
        if s[0] == '\\' {
          assert head[1..] == ['\\'] && head[1..][1..] == [];
        } else {
          assert head[1..] == [];
        }
      }
    }
  }

  /** `quote_and_escape`: the text `NULL` and Numerics are written bare; any
      other text is escaped and double-quoted, so that the reader gives the
      text back. */
  function QuoteAndEscape(v: Casted): (r: string)
    ensures v.Numeric? ==> r == v.digits
    ensures v == Text("NULL") ==> r == "NULL"
    ensures v.Text? && v.text != "NULL" ==>
              |r| >= 2 && r[0] == '"' && ReadQuoted(r[1..]) == Some((v.text, |r| - 1))
    ensures v.Text? && v.text != "NULL" ==> r == "\"" + Escaped(v.text) + "\""
  {
    match v
    case Numeric(d) => d
    case Text(t) =>
      if t == "NULL" then t
      else
        var r := "\"" + EscapeQuotes(DoubleBackslashes(t)) + "\"";
        ArrayEscapeIsEscaped(t);
        QuotedReadsBack(t, r);
        r
  }

  /** The whole quoted text is read back, up to its closing quote. */
  lemma QuotedReadsBack(t: string, r: string)
    requires r == "\"" + Escaped(t) + "\""
    ensures |r| >= 2 && r[0] == '"' && ReadQuoted(r[1..]) == Some((t, |r| - 1))
  {
    ReadQuotedEscaped(t, []);
    assert r[1..] == Escaped(t) + "\"" + [];
  }

  /** One element as `array_to_string` writes it: the String `NULL` is quoted
      without calling the caster; other Strings are cast, then quoted and
      escaped; other objects are cast and written as they come. */
  function RenderElement<E>(x: Element<E>, cast: Element<E> -> Casted): (r: string)
    ensures x.Str? && (x.s == "NULL" || (cast(x).Text? && cast(x).text != "NULL")) ==> |r| >= 2 && r[0] == '"'
    ensures x.Str? && x.s != "NULL" && cast(x).Numeric? ==> r == cast(x).digits
    ensures x.Obj? ==> r == CastedText(cast(x))
  {
    match x
    case Str(s) => if s == "NULL" then "\"NULL\"" else QuoteAndEscape(cast(x))
    case Obj(_) => CastedText(cast(x))
  }

  function Rendered<E>(xs: seq<Element<E>>, cast: Element<E> -> Casted): (r: seq<string>)
    ensures |r| == |xs| && forall i :: 0 <= i < |xs| ==> r[i] == RenderElement(xs[i], cast)
  {
    if xs == [] then [] else [RenderElement(xs[0], cast)] + Rendered(xs[1..], cast)
  }

  /** `array_to_string`: the written elements, in order, joined by `,` and
      wrapped in braces. */
  function ArrayToString<E>(xs: seq<Element<E>>, cast: Element<E> -> Casted): (r: string)
    ensures |r| >= 2 && r[0] == '{' && r[|r| - 1] == '}'
    ensures r[1..|r| - 1] == Join(Rendered(xs, cast), ',')
  {
    "{" + Join(Rendered(xs, cast), ',') + "}"
  }

  // ---------------------------------------------------------------------
  // Reading: one level of the array literal syntax, as the database reads it
  // ---------------------------------------------------------------------

  /** An element as the database reads it: SQL NULL or a text. */
  datatype PgItem = PgNull | PgText(text: string)

  /** After an opening quote: the element text, with each backslash escape
      resolved, and the number of characters up to and including the
      closing quote. */
  function ReadQuoted(t: string): (r: Option<(string, nat)>)
    ensures r.Some? ==> 1 <= r.value.1 <= |t|
    decreases |t|
  {
    if t == [] then None
    else if t[0] == '"' then Some(([], 1))
    else if t[0] == '\\' then
      if |t| < 2 then None else ConsChar(t[1], 2, ReadQuoted(t[2..]))
    else ConsChar(t[0], 1, ReadQuoted(t[1..]))
  }

  /** One more character read, taking `k` characters of input. */
  function ConsChar(c: char, k: nat, r: Option<(string, nat)>): (r': Option<(string, nat)>)
    ensures r'.Some? <==> r.Some?
    ensures r.Some? ==> r'.value.1 == r.value.1 + k && r'.value.0 == [c] + r.value.0
  {
    match r
    case None => None
    case Some((s, n)) => Some(([c] + s, n + k))
  }

  /** A character an unquoted element may hold; whitespace is one, but it is
      dropped at either end of the element. */
  predicate IsPlainChar(c: char)
  {
    c != ',' && c != '{' && c != '}' && c != '"' && c != '\\'
  }

  predicate AllPlain(t: string)
  {
    forall i :: 0 <= i < |t| ==> IsPlainChar(t[i])
  }

  /** A text the reader takes back unchanged when written without quotes:
      not empty, no reserved character, no whitespace at either end. */
  predicate IsPlain(t: string)
  {
    t != [] && AllPlain(t) && !IsSpace(t[0]) && !IsSpace(t[|t| - 1])
  }

  /** Whitespace dropped at the head. */
  function TrimStart(t: string): (r: string)
    ensures |r| <= |t| && r == t[|t| - |r|..]
    ensures r == [] || !IsSpace(r[0])
    ensures forall i :: 0 <= i < |t| - |r| ==> IsSpace(t[i])
  {
    if t != [] && IsSpace(t[0]) then TrimStart(t[1..]) else t
  }

  /** Whitespace dropped at the end. */
  function TrimEnd(t: string): (r: string)
    ensures |r| <= |t| && r == t[..|r|]
    ensures r == [] || !IsSpace(r[|r| - 1])
    ensures forall i :: |r| <= i < |t| ==> IsSpace(t[i])
  {
    if t != [] && IsSpace(t[|t| - 1]) then TrimEnd(t[..|t| - 1]) else t
  }

  /** An unquoted element with the whitespace around it dropped. */
  function Trim(t: string): (r: string)
    ensures r == [] || (!IsSpace(r[0]) && !IsSpace(r[|r| - 1]))
  {
    TrimEnd(TrimStart(t))
  }

  /** Length of the run of plain characters at the head of `t`. */
  function PlainLen(t: string): (r: nat)
    ensures r <= |t|
  {
    if t != [] && IsPlainChar(t[0]) then 1 + PlainLen(t[1..]) else 0
  }

  /** An unquoted element: `NULL` in any letter case is SQL NULL. */
  function Bare(t: string): PgItem
  {
    if IsNullWord(t) then PgNull else PgText(t)
  }

  /** One element at the head of `t` and its length. */
  function ReadItem(t: string): (r: Option<(PgItem, nat)>)
    ensures r.Some? ==> 0 < r.value.1 <= |t|
  {
    if t != [] && t[0] == '"' then
      match ReadQuoted(t[1..])
      case None => None
      case Some((s, n)) => Some((PgText(s), n + 1))
    else
      var n := PlainLen(t);
      if n == 0 then None
      else
        var e := Trim(t[..n]);
        if e == [] then None else Some((Bare(e), n))
  }

  /** The elements of `t`, separated by commas, or None if `t` is not such a list. */
  function ReadItems(t: string): Option<seq<PgItem>>
    decreases |t|
  {
    var first := ReadItem(t);
    if first.None? then None
    else
      var n := first.value.1;
      if n == |t| then Some([first.value.0])
      else if t[n] == ',' then PrependItem(first.value.0, ReadItems(t[n + 1..]))
      else None
  }

  function PrependItem(item: PgItem, r: Option<seq<PgItem>>): (r': Option<seq<PgItem>>)
    ensures r.Some? ==> r' == Some([item] + r.value)
    ensures r.None? ==> r'.None?
  {
    match r
    case None => None
    case Some(items) => Some([item] + items)
  }

  /** A one-level array literal `{e1,...,en}`. */
  function ReadArray(s: string): Option<seq<PgItem>>
  {
    if |s| >= 2 && s[0] == '{' && s[|s| - 1] == '}' then
      if |s| == 2 then Some([]) else ReadItems(s[1..|s| - 1])
    else None
  }

  // ---------------------------------------------------------------------
  // What the database reads back
  // ---------------------------------------------------------------------

  /** The element the database reads for a cast result written by
      `quote_and_escape`: the text `NULL` and a Numeric are bare tokens. */
  function CastedItem(c: Casted): PgItem
  {
    match c
    case Text(t) => if t == "NULL" then PgNull else PgText(t)
    case Numeric(d) => Bare(d)
  }

  /** The element the database reads for `x`: the String `NULL` stays the
      text `NULL`; any other String is read as its cast result; a cast result
      of another object is read as a bare token. */
  function ReadBack<E>(x: Element<E>, cast: Element<E> -> Casted): PgItem
  {
    match x
    case Str(s) => if s == "NULL" then PgText("NULL") else CastedItem(cast(x))
    case Obj(_) => Bare(CastedText(cast(x)))
  }

  function ReadBacks<E>(xs: seq<Element<E>>, cast: Element<E> -> Casted): (r: seq<PgItem>)
    ensures |r| == |xs|
  {
    if xs == [] then [] else [ReadBack(xs[0], cast)] + ReadBacks(xs[1..], cast)
  }

  /** Elements written bare must be non-empty, hold no character the syntax
      reserves and not begin or end with whitespace. */
  predicate Unambiguous<E>(x: Element<E>, cast: Element<E> -> Casted)
  {
    match x
    case Str(s) => s == "NULL" || cast(x).Text? || IsPlain(cast(x).digits)
    case Obj(_) => IsPlain(CastedText(cast(x)))
  }

  lemma {:induction false} ReadQuotedEscaped(x: string, rest: string)
    ensures ReadQuoted(Escaped(x) + "\"" + rest) == Some((x, |Escaped(x)| + 1))
  {
    var t := Escaped(x) + "\"" + rest;
    if x == [] {
      assert t[0] == '"';
    } else {
      ReadQuotedEscaped(x[1..], rest);
      var tail := Escaped(x[1..]) + "\"" + rest;
      ReadQuotedEscapeChar(x[0], tail);
      assert t == EscapeChar(x[0]) + tail;
      assert [x[0]] + x[1..] == x;
    }
  }

  lemma ReadQuotedEscapeChar(c: char, tail: string)
    ensures ReadQuoted(EscapeChar(c) + tail) == ConsChar(c, |EscapeChar(c)|, ReadQuoted(tail))
  {
    var t := EscapeChar(c) + tail;
    if c == '"' || c == '\\' {
      assert t[0] == '\\' && t[1] == c && t[2..] == tail;
    } else {
      assert t[0] == c && t[1..] == tail;
    }
  }

  lemma {:induction false} PlainLenPlain(p: string, rest: string)
    requires AllPlain(p)
    requires rest == [] || rest[0] == ','
    ensures PlainLen(p + rest) == |p|
  {
    if p == [] {
      assert p + rest == rest;
    } else {
      assert (p + rest)[1..] == p[1..] + rest;
      PlainLenPlain(p[1..], rest);
    }
  }

  lemma ReadItemBare(p: string, rest: string)
    requires IsPlain(p)
    requires rest == [] || rest[0] == ','
    ensures ReadItem(p + rest) == Some((Bare(p), |p|))
  {
    PlainLenPlain(p, rest);
    assert (p + rest)[..|p|] == p;
    assert TrimStart(p) == p;
    assert TrimEnd(p) == p;
  }

  lemma ReadItemQuoted(x: string, q: string, rest: string)
    requires q == "\"" + Escaped(x) + "\""
    ensures ReadItem(q + rest) == Some((PgText(x), |q|))
  {
    ReadQuotedEscaped(x, rest);
    var t := q + rest;
    assert t[0] == '"' && |q| == |Escaped(x)| + 2;
    assert t[1..] == Escaped(x) + "\"" + rest;
  }

  /** `quote_and_escape`'s output, followed by the end or a comma, is read
      back as the cast result it was made from. */
  lemma ReadItemCasted(c: Casted, rest: string)
    requires c.Text? || IsPlain(c.digits)
    requires rest == [] || rest[0] == ','
    ensures ReadItem(QuoteAndEscape(c) + rest) == Some((CastedItem(c), |QuoteAndEscape(c)|))
  {
    var r := QuoteAndEscape(c);
    match c
    case Text(t) =>
      if t == "NULL" {
        assert IsPlain(r);
        ReadItemBare(r, rest);
        assert IsNullWord(r);
      } else {
        ArrayEscapeIsEscaped(t);
        ReadItemQuoted(t, r, rest);
      }
    case Numeric(d) =>
      ReadItemBare(r, rest);
  }

  /** The quoted `NULL` written for the String `NULL` is read as that text. */
  lemma ReadItemQuotedNull(rest: string)
    ensures ReadItem("\"NULL\"" + rest) == Some((PgText("NULL"), 6))
  {
    NoBackslashEscaped("NULL");
    ReadItemQuoted("NULL", "\"NULL\"", rest);
  }

  /** Each written element, followed by the end or a comma, is read back as
      the element ReadBack names, and takes up exactly its written text. */
  lemma ReadItemRendered<E>(x: Element<E>, cast: Element<E> -> Casted, rest: string)
    requires Unambiguous(x, cast)
    requires rest == [] || rest[0] == ','
    ensures ReadItem(RenderElement(x, cast) + rest) == Some((ReadBack(x, cast), |RenderElement(x, cast)|))
  {
    match x
    case Str(s) =>
      if s == "NULL" {
        ReadItemQuotedNull(rest);
      } else {
        ReadItemCasted(cast(x), rest);
      }
    case Obj(_) =>
      ReadItemBare(CastedText(cast(x)), rest);
  }

  /** Whitespace around an unquoted element is dropped; whitespace inside
      it (as in a time of day written bare) is kept, since `IsPlain` allows
      it there. */
  lemma ReadItemPadded(p: string, rest: string)
    requires IsPlain(p)
    requires rest == [] || rest[0] == ','
    ensures ReadItem(" " + p + " " + rest) == Some((Bare(p), |p| + 2))
  {
    var q := " " + p + " ";
    PaddedPlain(p);
    PlainLenPlain(q, rest);
    assert (q + rest)[..|q|] == q;
    TrimPadded(p);
    assert " " + p + " " + rest == q + rest;
  }

  lemma PaddedPlain(p: string)
    requires IsPlain(p)
    ensures AllPlain(" " + p + " ")
  {
    var q := " " + p + " ";
    forall i | 0 <= i < |q| ensures IsPlainChar(q[i]) {
      if 0 < i < |q| - 1 {
        assert q[i] == p[i - 1];
      }
    }
  }

  lemma TrimPadded(p: string)
    requires IsPlain(p)
    ensures Trim(" " + p + " ") == p
  {
    var q := " " + p + " ";
    assert q[1..] == p + " ";
    assert TrimStart(p + " ") == p + " " by { assert (p + " ")[0] == p[0]; }
    assert (p + " ")[..|p|] == p;
    assert TrimEnd(p) == p;
  }

  lemma {:induction false} NoBackslashEscaped(s: string)
    requires forall i :: 0 <= i < |s| ==> s[i] != '\\' && s[i] != '"'
    ensures Escaped(s) == s
  {
    if s != [] {
      NoBackslashEscaped(s[1..]);
    }
  }

  /** An element that covers exactly `p`, then a comma, then the rest of the list. */
  lemma ReadItemsStep(p: string, rest: string, item: PgItem, items: seq<PgItem>)
    requires ReadItem(p + rest) == Some((item, |p|))
    requires rest != [] && rest[0] == ','
    requires ReadItems(rest[1..]) == Some(items)
    ensures ReadItems(p + rest) == Some([item] + items)
  {
    assert (p + rest)[|p|] == ',';
    assert (p + rest)[|p| + 1..] == rest[1..];
  }

  lemma {:induction false} ReadItemsJoined<E>(xs: seq<Element<E>>, cast: Element<E> -> Casted)
    requires |xs| > 0
    requires forall i :: 0 <= i < |xs| ==> Unambiguous(xs[i], cast)
    ensures ReadItems(Join(Rendered(xs, cast), ',')) == Some(ReadBacks(xs, cast))
  {
    var p := RenderElement(xs[0], cast);
    if |xs| == 1 {
      ReadItemRendered(xs[0], cast, []);
      assert p + [] == p;
      assert Rendered(xs, cast) == [p];
      assert ReadBacks(xs, cast) == [ReadBack(xs[0], cast)] by { assert xs[1..] == []; }
    } else {
      var more := Join(Rendered(xs[1..], cast), ',');
      assert Rendered(xs, cast)[1..] == Rendered(xs[1..], cast);
      JoinCons(Rendered(xs, cast), ',');
      var rest := "," + more;
      assert rest[1..] == more;
      ReadItemRendered(xs[0], cast, rest);
      ReadItemsJoined(xs[1..], cast);
      ReadItemsStep(p, rest, ReadBack(xs[0], cast), ReadBacks(xs[1..], cast));
    }
  }

  /** Every written element is at least one character long. */
  lemma RenderedNonEmpty<E>(x: Element<E>, cast: Element<E> -> Casted)
    requires Unambiguous(x, cast)
    ensures |RenderElement(x, cast)| > 0
  {
  }

  /** The database reads `array_to_string`'s output as exactly one element
      per Ruby element, in order, each the element ReadBack names. */
  lemma ArrayRoundTrip<E>(xs: seq<Element<E>>, cast: Element<E> -> Casted)
    requires forall i :: 0 <= i < |xs| ==> Unambiguous(xs[i], cast)
    ensures ReadArray(ArrayToString(xs, cast)) == Some(ReadBacks(xs, cast))
  {
    var s := ArrayToString(xs, cast);
    if xs == [] {
      assert s == "{}";
    } else {
      ReadItemsJoined(xs, cast);
      RenderedNonEmpty(xs[0], cast);
      JoinLength(Rendered(xs, cast), ',');
    }
  }

  function StrElements<E>(strs: seq<string>): (r: seq<Element<E>>)
    ensures |r| == |strs| && forall i :: 0 <= i < |strs| ==> r[i] == Str(strs[i])
  {
    if strs == [] then [] else [Str(strs[0])] + StrElements(strs[1..])
  }

  function TextItems(strs: seq<string>): (r: seq<PgItem>)
    ensures |r| == |strs| && forall i :: 0 <= i < |strs| ==> r[i] == PgText(strs[i])
  {
    if strs == [] then [] else [PgText(strs[0])] + TextItems(strs[1..])
  }

  /** With a caster that leaves text alone, every array of Strings reaches the
      database unchanged, the String `NULL` and texts holding quotes and
      backslashes included. */
  lemma StringArrayRoundTrip<E>(strs: seq<string>, cast: Element<E> -> Casted)
    requires forall s :: cast(Str(s)) == Text(s)
    ensures ReadArray(ArrayToString(StrElements<E>(strs), cast)) == Some(TextItems(strs))
  {
    var xs := StrElements<E>(strs);
    assert forall i :: 0 <= i < |xs| ==> Unambiguous(xs[i], cast);
    ArrayRoundTrip(xs, cast);
    var got := ReadBacks(xs, cast);
    ReadBacksStrings(strs, cast);
  }

  lemma {:induction false} ReadBacksStrings<E>(strs: seq<string>, cast: Element<E> -> Casted)
    requires forall s :: cast(Str(s)) == Text(s)
    ensures ReadBacks(StrElements<E>(strs), cast) == TextItems(strs)
  {
    if strs != [] {
      ReadBacksStrings(strs[1..], cast);
      assert StrElements<E>(strs)[1..] == StrElements<E>(strs[1..]);
    }
  }
}
