/** `range_to_string`: a Ruby Range written as a PostgreSQL range literal
    (section 8.17.5 of the PostgreSQL manual). */
module Range {
  import opened Common

  /** A Range endpoint: a value written by its `to_s`, or a Float infinity. */
  datatype Bound = Finite(text: string) | PosInf | NegInf

  /** An endpoint as written: an infinite endpoint of either sign, at either
      end, is left empty. */
  function BoundText(b: Bound): (r: string)
    ensures b.Finite? ==> r == b.text
    ensures !b.Finite? ==> r == []
    ensures ReadBound(r) == Meaning(b)
  {
    match b
    case Finite(t) => t
    case _ => ""
  }

  /** `range_to_string`: `[`, the two endpoints separated by a comma, then
      `)` for a Range that excludes its end and `]` for one that includes it. */
  function RangeToString(from: Bound, to: Bound, excludeEnd: bool): (r: string)
    ensures |r| == |BoundText(from)| + |BoundText(to)| + 3
    ensures r[0] == '[' && r[|r| - 1] == (if excludeEnd then ')' else ']')
    ensures r[1 + |BoundText(from)|] == ','
    ensures r[1..1 + |BoundText(from)|] == BoundText(from)
    ensures r[2 + |BoundText(from)|..|r| - 1] == BoundText(to)
  {
    "[" + BoundText(from) + "," + BoundText(to) + (if excludeEnd then ")" else "]")
  }

  // ---------------------------------------------------------------------
  // Reading a range literal
  // ---------------------------------------------------------------------

  /** A range bound as the database reads it. */
  datatype RangeBound = Unbounded | Value(text: string)

  /** A range as the database stores it. A missing bound is always
      exclusive (section 8.17.4 of the PostgreSQL manual). */
  datatype RangeValue = RangeValue(lower: RangeBound, lowerInclusive: bool, upper: RangeBound, upperInclusive: bool)

  /** Position of the first comma. */
  function CommaIndex(s: string): (r: Option<nat>)
    ensures r.Some? <==> Count(s, ',') > 0
    ensures r.Some? ==> r.value < |s| && s[r.value] == ',' && Count(s[..r.value], ',') == 0
  {
    if s == [] then None
    else if s[0] == ',' then (assert s[..0] == []; Some(0))
    else match CommaIndex(s[1..])
      case None => None
      case Some(k) => (assert s[..k + 1] == [s[0]] + s[1..][..k]; Some(k + 1))
  }

  /** A character an unquoted bound may hold: section 8.17.5 of the
      PostgreSQL manual asks for quotes around a bound holding any of
      `()[],"\`. */
  predicate IsBoundChar(c: char)
  {
    c != '(' && c != ')' && c != '[' && c != ']' && c != ',' && c != '"' && c != '\\'
  }

  predicate IsPlainBound(t: string)
  {
    forall i :: 0 <= i < |t| ==> IsBoundChar(t[i])
  }

  /** An empty bound text means no bound. */
  function ReadBound(t: string): RangeBound
  {
    if t == [] then Unbounded else Value(t)
  }

  /** An unquoted range literal opened by `[`: two bound texts separated by
      a comma, then `)` or `]`. A bound holding a character that would need
      quotes is not read. A missing bound is stored as exclusive whatever
      bracket stands beside it. */
  function ReadRange(s: string): Option<RangeValue>
  {
    if |s| >= 2 && s[0] == '[' && (s[|s| - 1] == ')' || s[|s| - 1] == ']') then
      var inner := s[1..|s| - 1];
      match CommaIndex(inner)
      case None => None
      case Some(k) =>
        if !IsPlainBound(inner[..k]) || !IsPlainBound(inner[k + 1..]) then None
        else
          var lower, upper := ReadBound(inner[..k]), ReadBound(inner[k + 1..]);
          Some(RangeValue(lower, lower.Value?, upper, upper.Value? && s[|s| - 1] == ']'))
    else None
  }

  /** What the database makes of an endpoint: an infinity, or an empty text,
      is no bound at all. */
  function Meaning(b: Bound): RangeBound
  {
    match b
    case Finite(t) => ReadBound(t)
    case _ => Unbounded
  }

  /** The literal `range_to_string` writes is read as a range with the same
      endpoints, an included start and the same end inclusion, a missing
      bound being exclusive, when no endpoint text holds a character that
      would need quotes. */
  lemma RangeRoundTrip(from: Bound, to: Bound, excludeEnd: bool)
    requires IsPlainBound(BoundText(from)) && IsPlainBound(BoundText(to))
    ensures ReadRange(RangeToString(from, to, excludeEnd)) ==
            Some(RangeValue(Meaning(from), Meaning(from).Value?, Meaning(to), Meaning(to).Value? && !excludeEnd))
  {
    var a, b := BoundText(from), BoundText(to);
    var s := RangeToString(from, to, excludeEnd);
    var inner := s[1..|s| - 1];
    assert inner == a + "," + b;
    PlainBoundNoComma(a);
    CountAppend(a, "," + b, ',');
    assert Count(",", ',') == 1;
    CommaIndexAfter(a, b);
    assert inner[..|a|] == a && inner[|a| + 1..] == b;
  }

  lemma CommaIndexAfter(a: string, b: string)
    requires Count(a, ',') == 0
    ensures CommaIndex(a + "," + b) == Some(|a|)
  {
    var s := a + "," + b;
    var k := CommaIndex(s);
    CountAppend(a, "," + b, ',');
    assert Count(",", ',') == 1;
    assert s == a + ("," + b);
    CountAppend(",", b, ',');
    if k.value < |a| {
      assert a[k.value] == s[k.value] == ',';
      CountPositive(a, k.value);
      assert false;
    } else if k.value > |a| {
      assert s[..k.value][|a|] == ',';
      CountPositive(s[..k.value], |a|);
      assert false;
    }
  }

  lemma {:induction false} PlainBoundNoComma(t: string)
    requires IsPlainBound(t)
    ensures Count(t, ',') == 0
  {
    if t != [] {
      PlainBoundNoComma(t[1..]);
    }
  }

  lemma {:induction false} CountPositive(s: string, i: nat)
    requires i < |s| && s[i] == ','
    ensures Count(s, ',') > 0
  {
    if i > 0 {
      CountPositive(s[1..], i - 1);
    }
  }

  /** An infinite endpoint reaches the database as no bound, and so as an
      exclusive one, whatever its sign and at whichever end it stands. */
  lemma InfiniteIsUnbounded(from: Bound, to: Bound, excludeEnd: bool)
    requires !from.Finite? || !to.Finite?
    requires IsPlainBound(BoundText(from)) && IsPlainBound(BoundText(to))
    ensures var r := ReadRange(RangeToString(from, to, excludeEnd));
            r.Some?
            && (!from.Finite? ==> r.value.lower == Unbounded && !r.value.lowerInclusive)
            && (!to.Finite? ==> r.value.upper == Unbounded && !r.value.upperInclusive)
  {
    RangeRoundTrip(from, to, excludeEnd);
  }
}
