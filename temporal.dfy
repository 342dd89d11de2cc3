/** `string_to_time`: the infinity words and the ` BC` era suffix are
    handled here; every other text goes on to the generic time parser
    (`super`), which is not part of this model. */
module Temporal {
  import opened Common

  /** What `string_to_time` produces for a text: a Float infinity, or the
      text it hands to the generic parser. */
  datatype TimeTag = Infinity | NegInfinity | Delegate(text: string)

  /** `/ BC$/` matches at `i`: ` BC` followed by the end of the text or by a
      line feed, since `$` is an end-of-line anchor. */
  predicate BCAt(s: string, i: nat)
    ensures BCAt(s, i) <==> i + 3 <= |s| && s[i..i + 3] == " BC" && (s[i + 3..] == [] || s[i + 3] == '\n')
  {
    i + 3 <= |s| && s[i] == ' ' && s[i + 1] == 'B' && s[i + 2] == 'C'
    && (i + 3 == |s| || s[i + 3] == '\n')
  }

  /** The leftmost match of `/ BC$/` at or after `from`. */
  function FirstBCFrom(s: string, from: nat): (r: Option<nat>)
    ensures r.Some? ==> from <= r.value && BCAt(s, r.value)
    ensures forall j: nat :: from <= j && (r.None? || j < r.value) ==> !BCAt(s, j)
    decreases |s| - from
  {
    if from + 3 > |s| then None
    else if BCAt(s, from) then Some(from)
    else FirstBCFrom(s, from + 1)
  }

  function FirstBC(s: string): (r: Option<nat>)
    ensures r.Some? ==> BCAt(s, r.value)
    ensures forall j: nat :: (r.None? || j < r.value) ==> !BCAt(s, j)
  {
    FirstBCFrom(s, 0)
  }

  /** The case analysis of `string_to_time` on a text. */
  function ClassifyTime(s: string): (r: TimeTag)
    ensures r == Infinity <==> s == "infinity"
    ensures r == NegInfinity <==> s == "-infinity"
    ensures r.Delegate? && FirstBC(s).None? ==> r.text == s
    ensures r.Delegate? && FirstBC(s).Some? ==>
              |r.text| == |s| - 2 && r.text[0] == '-'
              && r.text[1..][..FirstBC(s).value] + " BC" + r.text[1..][FirstBC(s).value..] == s
  {
    if s == "infinity" then Infinity
    else if s == "-infinity" then NegInfinity
    else
      match FirstBC(s)
      case None => Delegate(s)
      case Some(i) =>
        var t := "-" + (s[..i] + s[i + 3..]);
        RemoveBC(s, i, t);
        Delegate(t)
  }

  /** `sub(/ BC$/, "")` at a match, with the minus sign in front: what is
      left puts the text back together once the suffix is put back. */
  lemma RemoveBC(s: string, i: nat, t: string)
    requires BCAt(s, i) && t == "-" + (s[..i] + s[i + 3..])
    ensures |t| == |s| - 2 && t[0] == '-' && t[1..][..i] + " BC" + t[1..][i..] == s
  {
    assert t[1..] == s[..i] + s[i + 3..];
    assert t[1..][..i] == s[..i] && t[1..][i..] == s[i + 3..];
    assert s[i..i + 3] == " BC";
    assert s == s[..i] + s[i..i + 3] + s[i + 3..];
  }

  /** `string_to_time`: anything but a String (nil included) is returned as
      it is; a String is classified. */
  function StringToTime<X>(v: Dyn<string, X>): (r: Dyn<TimeTag, X>)
    ensures v.Nil? ==> r.Nil?
    ensures v.Other? ==> r == Other(v.other)
    ensures v.Is? ==> r == Is(ClassifyTime(v.value))
  {
    match v
    case Nil => Nil
    case Other(x) => Other(x)
    case Is(s) => Is(ClassifyTime(s))
  }

  // ---------------------------------------------------------------------
  // Properties
  // ---------------------------------------------------------------------

  predicate SingleLine(d: string)
  {
    forall i :: 0 <= i < |d| ==> d[i] != '\n'
  }

  /** A one-line date with the ` BC` suffix is handed on with the suffix
      dropped and a minus sign put in front. */
  lemma BCDate<X>(d: string)
    requires SingleLine(d)
    ensures StringToTime<X>(Is(d + " BC")) == Is(Delegate("-" + d))
  {
    var s := d + " BC";
    assert BCAt(s, |d|);
    var i := FirstBC(s).value;
    if i < |d| {
      assert false;
    }
    assert s[..|d|] == d && s[|d| + 3..] == [];
    assert s != "infinity" && s != "-infinity" by { assert s[|s| - 1] == 'C'; }
    assert d + [] == d;
  }

  /** A text without the era suffix that is not an infinity word is handed
      on unchanged. */
  lemma PlainTime<X>(s: string)
    requires forall i: nat :: !BCAt(s, i)
    requires s != "infinity" && s != "-infinity"
    ensures StringToTime<X>(Is(s)) == Is(Delegate(s))
  {
  }

  /** The suffix counts at the end of any line, and only its first match is
      removed. */
  lemma BCOnFirstLine<X>()
    ensures StringToTime<X>(Is("1 BC\n2 BC")) == Is(Delegate("-1\n2 BC"))
  {
    var s := "1 BC\n2 BC";
    assert BCAt(s, 1);
    assert !BCAt(s, 0);
    assert FirstBC(s) == Some(1);
    assert s != "infinity" && s != "-infinity" by { assert s[0] == '1'; }
    assert "-" + (s[..1] + s[4..]) == "-1\n2 BC";
  }
}
