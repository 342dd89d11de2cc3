/** `point_to_string` and `string_to_point`: a point as the text `(x,y)`.
    The components stay texts here; their conversion by `Float()` is not
    part of this model. */
module Point {
  import opened Common

  /** `point_to_string`: both components in parentheses, separated by a comma. */
  function PointToString(x: string, y: string): (r: string)
    ensures |r| == |x| + |y| + 3 && r[0] == '(' && r[|r| - 1] == ')'
    ensures r[|x| + 1] == ','
    ensures r[1..|x| + 1] == x && r[|x| + 2..|r| - 1] == y
  {
    "(" + x + "," + y + ")"
  }

  /** The first and last characters are dropped only when they are `(` and
      `)` respectively. */
  function StripParens(s: string): (r: string)
    ensures |s| >= 2 && s[0] == '(' && s[|s| - 1] == ')' ==> "(" + r + ")" == s
    ensures !(|s| >= 2 && s[0] == '(' && s[|s| - 1] == ')') ==> r == s
  {
    if |s| >= 2 && s[0] == '(' && s[|s| - 1] == ')' then s[1..|s| - 1] else s
  }

  /** All comma-separated fields of a text, empty ones included. */
  function Fields(t: string): (r: seq<string>)
    ensures |r| == Count(t, ',') + 1
    ensures forall i :: 0 <= i < |r| ==> Count(r[i], ',') == 0
  {
    if t == [] then [""]
    else
      var rest := Fields(t[1..]);
      if t[0] == ',' then [""] + rest
      else
        assert Count([t[0]] + rest[0], ',') == 0 by {
          assert ([t[0]] + rest[0])[1..] == rest[0];
        }
        [[t[0]] + rest[0]] + rest[1..]
  }

  /** Ruby's `split` drops the empty fields at the end. */
  function DropTrailingEmpty(fs: seq<string>): (r: seq<string>)
    ensures |r| <= |fs| && r == fs[..|r|]
    ensures forall i :: |r| <= i < |fs| ==> fs[i] == ""
    ensures r == [] || r[|r| - 1] != ""
  {
    if fs == [] then []
    else if fs[|fs| - 1] == "" then DropTrailingEmpty(fs[..|fs| - 1])
    else fs
  }

  /** `string.split(',')`. */
  function Split(t: string): (r: seq<string>)
    ensures forall i :: 0 <= i < |r| ==> Count(r[i], ',') == 0
    ensures |r| <= |Fields(t)| && r == Fields(t)[..|r|]
    ensures forall i :: |r| <= i < |Fields(t)| ==> Fields(t)[i] == ""
    ensures r == [] || r[|r| - 1] != ""
  {
    DropTrailingEmpty(Fields(t))
  }

  /** `string_to_point`: the surrounding parentheses, when both are there,
      are removed and the rest is split at commas. */
  function StringToPoint(s: string): (r: seq<string>)
    ensures forall i :: 0 <= i < |r| ==> Count(r[i], ',') == 0
    ensures |r| <= Count(StripParens(s), ',') + 1
    ensures r == [] || r[|r| - 1] != ""
    ensures var f := Fields(StripParens(s));
            |r| <= |f| && r == f[..|r|] && forall i :: |r| <= i < |f| ==> f[i] == ""
  {
    Split(StripParens(s))
  }

  // ---------------------------------------------------------------------
  // Properties
  // ---------------------------------------------------------------------

  /** Joining the fields with commas gives the text back. */
  lemma {:induction false} FieldsJoin(t: string)
    ensures Join(Fields(t), ',') == t
  {
    if t != [] {
      FieldsJoin(t[1..]);
      var rest := Fields(t[1..]);
      if t[0] == ',' {
        JoinCons([""] + rest, ',');
        assert ([""] + rest)[1..] == rest;
      } else if |rest| == 1 {
        assert Fields(t) == [[t[0]] + rest[0]];
      } else {
        JoinCons(rest, ',');
        var f := [[t[0]] + rest[0]] + rest[1..];
        JoinCons(f, ',');
        assert f[1..] == rest[1..];
      }
    }
  }

  lemma {:induction false} FieldsOfPlain(x: string)
    requires Count(x, ',') == 0
    ensures Fields(x) == [x]
  {
    if x != [] {
      FieldsOfPlain(x[1..]);
      assert [x[0]] + x[1..] == x;
    }
  }

  lemma {:induction false} FieldsOfTwo(x: string, y: string)
    requires Count(x, ',') == 0 && Count(y, ',') == 0
    ensures Fields(x + "," + y) == [x, y]
  {
    if x == [] {
      FieldsOfPlain(y);
      assert (x + "," + y)[1..] == y;
    } else {
      FieldsOfTwo(x[1..], y);
      assert (x + "," + y)[1..] == x[1..] + "," + y;
      assert [x[0]] + x[1..] == x;
    }
  }

  /** The parentheses `point_to_string` writes are the ones removed. */
  lemma ParensStripped(x: string, y: string)
    ensures StripParens(PointToString(x, y)) == x + "," + y
  {
    var s := PointToString(x, y);
    var inner := x + "," + y;
    assert s == "(" + inner + ")";
    assert s[1..|s| - 1] == inner;
  }

  lemma PointFields(x: string, y: string)
    requires Count(x, ',') == 0 && Count(y, ',') == 0
    ensures StringToPoint(PointToString(x, y)) == DropTrailingEmpty([x, y])
  {
    ParensStripped(x, y);
    FieldsOfTwo(x, y);
  }

  /** Two components without commas, the second not empty, come back as
      they were written. */
  lemma PointRoundTrip(x: string, y: string)
    requires Count(x, ',') == 0 && Count(y, ',') == 0
    requires y != ""
    ensures StringToPoint(PointToString(x, y)) == [x, y]
  {
    PointFields(x, y);
  }

  /** An empty second component is lost, and an empty first one with it,
      because `split` drops empty fields at the end. */
  lemma EmptyYLost(x: string)
    requires Count(x, ',') == 0
    ensures StringToPoint(PointToString(x, "")) == (if x == "" then [] else [x])
  {
    PointFields(x, "");
    DropEmptyLast(x);
  }

  lemma DropEmptyLast(x: string)
    ensures DropTrailingEmpty([x, ""]) == (if x == "" then [] else [x])
  {
    assert [x, ""][..1] == [x];
    if x == "" {
      assert [x][..0] == [];
    }
  }
}
