/** The hstore codec: `escape_hstore`, `hstore_to_string`, the `HstorePair`
    token grammar and `string_to_hstore`. */
module Hstore {
  import opened Common
  import ArrayLiteral

  /** One hstore entry: a text key and a text value or SQL NULL (`nil`). */
  datatype Entry = Entry(key: string, value: Option<string>)

  /** The keys of a Ruby Hash, in its insertion order. */
  function Keys(h: seq<Entry>): (r: seq<string>)
    ensures |r| == |h| && forall i :: 0 <= i < |h| ==> r[i] == h[i].key
  {
    if h == [] then [] else [h[0].key] + Keys(h[1..])
  }

  /** A Ruby Hash never holds one key twice. */
  predicate UniqueKeys(h: seq<Entry>)
  {
    forall i, j :: 0 <= i < j < |h| ==> h[i].key != h[j].key
  }

  // ---------------------------------------------------------------------
  // Serialising: escape_hstore and hstore_to_string
  // ---------------------------------------------------------------------

  /** `escape_hstore`: `nil` is the bare word `NULL`, the empty text is `""`,
      any other text is double-quoted with a backslash before each `"` and `\`. */
  function EscapeHstore(v: Option<string>): (r: string)
    ensures v.None? <==> IsNullWord(r)
    ensures v.None? ==> r == "NULL"
    ensures v.Some? ==> |r| >= 2 && r[0] == '"' && r[|r| - 1] == '"'
    ensures v.Some? ==> r[1..|r| - 1] == Escaped(v.value)
  {
    match v
    case None => "NULL"
    case Some(s) =>
      if s == "" then "\"\"" else "\"" + Escaped(s) + "\""
  }

  /** A quoted token decodes back to the text it was escaped from. */
  lemma DecodeEscapeHstore(s: string)
    ensures DecodeToken(EscapeHstore(Some(s))) == s
  {
    UnescapedEscaped(s);
  }

  /** The `k=>v` text of one entry. */
  function PairText(e: Entry): (r: string)
    ensures var k := EscapeHstore(Some(e.key));
            |k| + 2 < |r| && r[..|k|] == k && r[|k|..|k| + 2] == "=>" && r[|k| + 2..] == EscapeHstore(e.value)
  {
    EscapeHstore(Some(e.key)) + "=>" + EscapeHstore(e.value)
  }

  function PairTexts(h: seq<Entry>): (r: seq<string>)
    ensures |r| == |h| && forall i :: 0 <= i < |h| ==> r[i] == PairText(h[i])
  {
    if h == [] then [] else [PairText(h[0])] + PairTexts(h[1..])
  }

  /** `hstore_to_string`: a Hash becomes its pairs joined by `,`, escaped once
      more as a single token when it is itself an array member; anything that
      is not a Hash is returned unchanged. */
  function HstoreToString<X>(o: Dyn<seq<Entry>, X>, arrayMember: bool): (r: Dyn<string, X>)
    ensures o.Nil? ==> r.Nil?
    ensures o.Other? ==> r == Other(o.other)
    ensures o.Is? ==> r.Is?
    ensures o.Is? && !arrayMember ==> r.value == Join(PairTexts(o.value), ',')
    ensures o.Is? && arrayMember ==> r.value == EscapeHstore(Some(Join(PairTexts(o.value), ',')))
    ensures o.Is? && arrayMember ==> DecodeToken(r.value) == Join(PairTexts(o.value), ',')
  {
    match o
    case Nil => Nil
    case Other(x) => Other(x)
    case Is(h) =>
      var s := Join(PairTexts(h), ',');
      DecodeEscapeHstore(s);
      Is(if arrayMember then EscapeHstore(Some(s)) else s)
  }

  // ---------------------------------------------------------------------
  // The HstorePair grammar, as a character scanner
  // ---------------------------------------------------------------------

  function Shift(n: nat, o: Option<nat>): Option<nat>
  {
    match o
    case None => None
    case Some(k) => Some(n + k)
  }

  /** After an opening quote: the length up to and including the closing
      quote, reading runs of characters other than `"` and `\` and escape
      pairs `\` + any character but a line feed. */
  function QuotedTail(t: string): (r: Option<nat>)
    ensures r.Some? ==> 1 <= r.value <= |t| && t[r.value - 1] == '"'
    decreases |t|
  {
    if t == [] then None
    else if t[0] == '"' then Some(1)
    else if t[0] == '\\' then
      if |t| >= 2 && t[1] != '\n' then Shift(2, QuotedTail(t[2..])) else None
    else Shift(1, QuotedTail(t[1..]))
  }

  /** The quoted-token alternative of HstorePair at the head of `t`. */
  function QuotedLen(t: string): (r: Option<nat>)
    ensures r.Some? ==> 2 <= r.value <= |t| && t[0] == '"' && t[r.value - 1] == '"'
  {
    if t != [] && t[0] == '"' then Shift(1, QuotedTail(t[1..])) else None
  }

  /** A character a bare token may hold without escaping. */
  predicate IsBareChar(c: char)
  {
    !IsSpace(c) && c != ',' && c != '=' && c != '\\'
  }

  /** The bare-token alternative at the head of `t` (0 when there is none):
      the longest run of bare characters and escape pairs. */
  function BareLen(t: string): (r: nat)
    ensures r <= |t|
    ensures r > 0 ==> t[0] == '\\' || IsBareChar(t[0])
    ensures r == 0 ==> t == [] || !IsBareChar(t[0])
    ensures r == 0 <==> t == [] || !(IsBareChar(t[0]) || (t[0] == '\\' && |t| >= 2 && t[1] != '\n'))
  {
    if t == [] then 0
    else if t[0] == '\\' then
      if |t| >= 2 && t[1] != '\n' then 2 + BareLen(t[2..]) else 0
    else if IsBareChar(t[0]) then 1 + BareLen(t[1..])
    else 0
  }

  /** Length of the run of `\s` characters at the head of `t`. */
  function SpaceLen(t: string): (r: nat)
    ensures r <= |t|
    ensures r < |t| ==> !IsSpace(t[r])
  {
    if t != [] && IsSpace(t[0]) then 1 + SpaceLen(t[1..]) else 0
  }

  /** A value token: the quoted alternative first, the bare one otherwise. */
  function ValueLen(t: string): (r: Option<nat>)
    ensures r.Some? ==> 0 < r.value <= |t|
  {
    match QuotedLen(t)
    case Some(n) => Some(n)
    case None => var b := BareLen(t); if b > 0 then Some(b) else None
  }

  /** One HstorePair match at the head of a text: the raw key and value
      tokens and the number of characters matched. */
  datatype RawPair = RawPair(key: string, value: string, len: nat)

  /** `\s*=>\s*` and a value token at the head of `t`: where the value
      token starts and how long it is. */
  function ArrowValue(t: string): (r: Option<(nat, nat)>)
    ensures r.Some? ==> 2 <= r.value.0 && 0 < r.value.1 && r.value.0 + r.value.1 <= |t|
  {
    var a := SpaceLen(t);
    if a + 2 <= |t| && t[a] == '=' && t[a + 1] == '>' then
      var b := a + 2 + SpaceLen(t[a + 2..]);
      match ValueLen(t[b..])
      case None => None
      case Some(n) => Some((b, n))
    else None
  }

  /** The rest of HstorePair once the key token is fixed: `tail` is the text
      after the key. */
  function PairAfterKey(key: string, tail: string): (r: Option<RawPair>)
    ensures r.Some? ==> r.value.key == key && |key| + 2 < r.value.len <= |key| + |tail|
    ensures r.Some? ==> var n := r.value.len - |key|;
              0 < |r.value.value| && 2 + |r.value.value| <= n && tail[n - |r.value.value|..n] == r.value.value
  {
    match ArrowValue(tail)
    case None => None
    case Some((b, n)) => Some(RawPair(key, tail[b..b + n], |key| + b + n))
  }

  /** HstorePair anchored at the head of `t`: a quoted key is tried first and,
      when the rest of the pair does not follow it, a bare key. */
  function MatchPair(t: string): (r: Option<RawPair>)
    ensures r.Some? ==> 4 <= r.value.len <= |t|
    ensures r.Some? ==> 0 < |r.value.key| < r.value.len && t[..|r.value.key|] == r.value.key
  {
    var quoted := match QuotedLen(t) case Some(k) => PairAfterKey(t[..k], t[k..]) case None => None;
    if quoted.Some? then quoted
    else
      var k := BareLen(t);
      if k > 0 then PairAfterKey(t[..k], t[k..]) else None
  }

  /** `string.scan(HstorePair)`: every match, left to right, with the search
      moving on one character wherever no pair starts. */
  function Scan(t: string): (r: seq<RawPair>)
    ensures 4 * |r| <= |t|
    ensures forall i :: 0 <= i < |r| ==> r[i].key != [] && r[i].value != []
    decreases |t|
  {
    if t == [] then []
    else
      match MatchPair(t)
      case Some(p) => [p] + Scan(t[p.len..])
      case None => Scan(t[1..])
  }

  // ---------------------------------------------------------------------
  // Decoding: string_to_hstore
  // ---------------------------------------------------------------------

  /** `gsub(/\A"(.*)"\Z/m, '\1')`: drop one pair of surrounding quotes; `\Z`
      also matches before a final line feed, which is then kept. */
  function Unquoted(t: string): (r: string)
    ensures |t| >= 2 && t[0] == '"' && t[|t| - 1] == '"' ==> "\"" + r + "\"" == t
    ensures |t| >= 3 && t[0] == '"' && t[|t| - 2] == '"' && t[|t| - 1] == '\n' ==>
              r != [] && "\"" + r[..|r| - 1] + "\"\n" == t
    ensures (!(|t| >= 2 && t[0] == '"' && t[|t| - 1] == '"')
             && !(|t| >= 3 && t[0] == '"' && t[|t| - 2] == '"' && t[|t| - 1] == '\n')) ==> r == t
  {
    if |t| >= 2 && t[0] == '"' && t[|t| - 1] == '"' then t[1..|t| - 1]
    else if |t| >= 3 && t[0] == '"' && t[|t| - 1] == '\n' && t[|t| - 2] == '"' then t[1..|t| - 2] + "\n"
    else t
  }

  /** A captured token with its quotes and escapes removed. */
  function DecodeToken(t: string): (r: string)
    ensures |r| <= |t|
    ensures (t == [] || t[0] != '"') && Count(t, '\\') == 0 ==> r == t
  {
    Unescaped(Unquoted(t))
  }

  /** The entry one match stands for: a value token spelling `NULL` in any
      case is SQL NULL; keys are always text. */
  function DecodePair(p: RawPair): (e: Entry)
    ensures e.value.None? <==> IsNullWord(p.value)
    ensures e.key == DecodeToken(p.key)
    ensures e.value.Some? ==> e.value.value == DecodeToken(p.value)
  {
    Entry(DecodeToken(p.key), if IsNullWord(p.value) then None else Some(DecodeToken(p.value)))
  }

  function DecodePairs(ps: seq<RawPair>): (r: seq<Entry>)
    ensures |r| == |ps| && forall i :: 0 <= i < |ps| ==> r[i] == DecodePair(ps[i])
  {
    if ps == [] then [] else [DecodePair(ps[0])] + DecodePairs(ps[1..])
  }

  /** Where key `k` sits in `h`, if it does. */
  function IndexOf(h: seq<Entry>, k: string): (r: Option<nat>)
    ensures r.Some? ==> r.value < |h| && h[r.value].key == k
    ensures r.None? <==> k !in Keys(h)
  {
    if h == [] then None
    else if h[0].key == k then Some(0)
    else Shift(1, IndexOf(h[1..], k))
  }

  /** `hash[k] = v` on a Ruby Hash: an existing key keeps its place and takes
      the new value, a new key goes last. */
  function Put(h: seq<Entry>, e: Entry): (r: seq<Entry>)
    ensures UniqueKeys(h) ==> UniqueKeys(r)
    ensures Keys(r) == if e.key in Keys(h) then Keys(h) else Keys(h) + [e.key]
  {
    match IndexOf(h, e.key)
    case Some(i) => h[i := e]
    case None => h + [e]
  }

  /** `Hash[pairs]`. */
  function FromPairs(ps: seq<Entry>): (r: seq<Entry>)
    ensures UniqueKeys(r)
  {
    if ps == [] then [] else Put(FromPairs(ps[..|ps| - 1]), ps[|ps| - 1])
  }

  /** `string_to_hstore`: `nil` stays `nil`, a String is scanned into a Hash,
      anything else is returned unchanged. */
  function StringToHstore<X>(s: Dyn<string, X>): (r: Dyn<seq<Entry>, X>)
    ensures s.Nil? ==> r.Nil?
    ensures s.Other? ==> r == Other(s.other)
    ensures s.Is? ==> r.Is? && UniqueKeys(r.value)
  {
    match s
    case Nil => Nil
    case Other(x) => Other(x)
    case Is(t) => Is(FromPairs(DecodePairs(Scan(t))))
  }

  // ---------------------------------------------------------------------
  // Hash[...]: order of first occurrence, last duplicate wins
  // ---------------------------------------------------------------------

  /** Reference definition: the keys in the order they first occur. */
  function FirstOccurrences(ks: seq<string>): seq<string>
  {
    if ks == [] then []
    else
      var d := FirstOccurrences(ks[..|ks| - 1]);
      if ks[|ks| - 1] in d then d else d + [ks[|ks| - 1]]
  }

  /** Reference definition: the value the last pair with key `k` carries. */
  function LastValue(ps: seq<Entry>, k: string): Option<Option<string>>
  {
    if ps == [] then None
    else if ps[|ps| - 1].key == k then Some(ps[|ps| - 1].value)
    else LastValue(ps[..|ps| - 1], k)
  }

  /** Looking a key up in a Hash. */
  function Lookup(h: seq<Entry>, k: string): (r: Option<Option<string>>)
    ensures r.Some? <==> k in Keys(h)
  {
    match IndexOf(h, k)
    case Some(i) => Some(h[i].value)
    case None => None
  }

  /** `Hash[pairs]` lists its keys in the order of their first occurrence. */
  lemma {:induction false} FromPairsOrder(ps: seq<Entry>)
    ensures Keys(FromPairs(ps)) == FirstOccurrences(Keys(ps))
  {
    if ps != [] {
      var init := ps[..|ps| - 1];
      FromPairsOrder(init);
      assert Keys(init) == Keys(ps)[..|ps| - 1];
    }
  }

  /** In a Hash, looking up the key of an entry finds that entry's value. */
  lemma LookupAt(h: seq<Entry>, i: nat)
    requires UniqueKeys(h) && i < |h|
    ensures Lookup(h, h[i].key) == Some(h[i].value)
  {
    var j := IndexOf(h, h[i].key).value;
    assert h[j].key == h[i].key;
  }

  lemma LookupPut(h: seq<Entry>, e: Entry, k: string)
    requires UniqueKeys(h)
    ensures Lookup(Put(h, e), k) == if e.key == k then Some(e.value) else Lookup(h, k)
  {
    var r := Put(h, e);
    var at := if IndexOf(h, e.key).Some? then IndexOf(h, e.key).value else |h|;
    assert at < |r| && r[at] == e;
    assert forall j :: 0 <= j < |h| && j != at ==> r[j] == h[j];
    if k == e.key {
      LookupAt(r, at);
    } else if IndexOf(h, k).Some? {
      var j := IndexOf(h, k).value;
      LookupAt(h, j);
      LookupAt(r, j);
    } else {
      assert k !in Keys(r);
    }
  }

  /** In `Hash[pairs]` a key maps to the value of its last pair. */
  lemma {:induction false} FromPairsLookup(ps: seq<Entry>, k: string)
    ensures Lookup(FromPairs(ps), k) == LastValue(ps, k)
  {
    if ps != [] {
      FromPairsLookup(ps[..|ps| - 1], k);
      LookupPut(FromPairs(ps[..|ps| - 1]), ps[|ps| - 1], k);
    }
  }

  /** `Hash[pairs]` over pairs whose keys are already distinct is the pairs. */
  lemma {:induction false} FromPairsUnique(ps: seq<Entry>)
    requires UniqueKeys(ps)
    ensures FromPairs(ps) == ps
  {
    if ps != [] {
      var init := ps[..|ps| - 1];
      assert UniqueKeys(init);
      FromPairsUnique(init);
      var last := ps[|ps| - 1];
      LastKeyIsNew(ps);
      assert init + [last] == ps;
    }
  }

  lemma LastKeyIsNew(ps: seq<Entry>)
    requires UniqueKeys(ps) && ps != []
    ensures ps[|ps| - 1].key !in Keys(ps[..|ps| - 1])
  {
    var init := ps[..|ps| - 1];
    assert forall j :: 0 <= j < |init| ==> Keys(init)[j] == ps[j].key;
  }

  // ---------------------------------------------------------------------
  // The round trip
  // ---------------------------------------------------------------------

  lemma {:induction false} QuotedTailEscaped(x: string, rest: string)
    ensures QuotedTail(Escaped(x) + "\"" + rest) == Some(|Escaped(x)| + 1)
  {
    if x != [] {
      QuotedTailEscaped(x[1..], rest);
      var e := Escaped(x[1..]);
      var tail := e + "\"" + rest;
      QuotedTailEscapeChar(x[0], tail);
      assert Escaped(x) == EscapeChar(x[0]) + e;
      assert Escaped(x) + "\"" + rest == EscapeChar(x[0]) + tail;
    }
  }

  lemma QuotedTailEscapeChar(c: char, tail: string)
    ensures QuotedTail(EscapeChar(c) + tail) == Shift(|EscapeChar(c)|, QuotedTail(tail))
  {
    var t := EscapeChar(c) + tail;
    if c == '"' || c == '\\' {
      assert t[0] == '\\' && t[1] == c && t[2..] == tail;
    } else {
      assert t[0] == c && t[1..] == tail;
    }
  }

  /** An escaped text is read back as one whole quoted token, whatever follows. */
  lemma QuotedLenEscaped(x: string, rest: string)
    ensures QuotedLen(EscapeHstore(Some(x)) + rest) == Some(|EscapeHstore(Some(x))|)
  {
    var q := EscapeHstore(Some(x));
    assert q == "\"" + Escaped(x) + "\"";
    QuotedTailEscaped(x, rest);
    assert (q + rest)[1..] == Escaped(x) + "\"" + rest;
  }

  lemma BareLenNull(rest: string)
    requires rest == [] || rest[0] == ','
    ensures BareLen("NULL" + rest) == 4
  {
    assert BareLen(rest) == 0;
    BareLenCons('L', rest);
    BareLenCons('L', "L" + rest);
    BareLenCons('U', "LL" + rest);
    BareLenCons('N', "ULL" + rest);
    assert "N" + ("U" + ("L" + ("L" + rest))) == "NULL" + rest;
  }

  lemma BareLenCons(c: char, t: string)
    requires IsBareChar(c) && c != '\\'
    ensures BareLen([c] + t) == 1 + BareLen(t)
  {
    assert ([c] + t)[1..] == t;
  }

  lemma ValueLenEscaped(v: Option<string>, rest: string)
    requires rest == [] || rest[0] == ','
    ensures ValueLen(EscapeHstore(v) + rest) == Some(|EscapeHstore(v)|)
  {
    match v
    case Some(x) => QuotedLenEscaped(x, rest);
    case None =>
      assert QuotedLen("NULL" + rest).None?;
      BareLenNull(rest);
  }

  /** `=>` directly followed by a value token that ends where V ends. */
  lemma ArrowValueOf(V: string, rest: string)
    requires V != [] && !IsSpace(V[0])
    requires ValueLen(V + rest) == Some(|V|)
    ensures ArrowValue("=>" + (V + rest)) == Some((2 as nat, |V|))
  {
    var t := "=>" + (V + rest);
    assert t[2..] == V + rest;
  }

  /** Once a key token K is fixed, `=>` and a value token that ends where V
      ends complete the pair. */
  lemma PairAfterArrow(K: string, V: string, rest: string)
    requires V != [] && !IsSpace(V[0])
    requires ValueLen(V + rest) == Some(|V|)
    ensures PairAfterKey(K, "=>" + (V + rest)) == Some(RawPair(K, V, |K| + 2 + |V|))
  {
    ArrowValueOf(V, rest);
    assert ("=>" + (V + rest))[2..2 + |V|] == V;
  }

  lemma Regroup(a: string, b: string, c: string, d: string)
    ensures a + b + c + d == a + (b + (c + d))
  {
  }

  /** The match `hstore_to_string`'s text of one entry is meant to produce. */
  function EncodedPair(e: Entry): RawPair
  {
    RawPair(EscapeHstore(Some(e.key)), EscapeHstore(e.value), |PairText(e)|)
  }

  /** A quoted key token K, `=>` and a value token V form one whole match. */
  lemma MatchQuotedKey(t: string, K: string, V: string, rest: string, raw: RawPair)
    requires t == K + ("=>" + (V + rest))
    requires QuotedLen(t) == Some(|K|)
    requires V != [] && !IsSpace(V[0])
    requires ValueLen(V + rest) == Some(|V|)
    requires raw == RawPair(K, V, |K| + 2 + |V|)
    ensures MatchPair(t) == Some(raw)
  {
    PairAfterArrow(K, V, rest);
    assert t[..|K|] == K;
    assert t[|K|..] == "=>" + (V + rest);
  }

  /** The text of one entry, followed by the end or a comma, is matched as
      exactly that entry's key and value tokens. */
  lemma MatchPairText(e: Entry, rest: string)
    requires rest == [] || rest[0] == ','
    ensures MatchPair(PairText(e) + rest) == Some(EncodedPair(e))
  {
    var K, V := EscapeHstore(Some(e.key)), EscapeHstore(e.value);
    var t := PairText(e) + rest;
    Regroup(K, "=>", V, rest);
    QuotedLenEscaped(e.key, "=>" + (V + rest));
    ValueLenEscaped(e.value, rest);
    assert V[0] == '"' || V[0] == 'N';
    MatchQuotedKey(t, K, V, rest, EncodedPair(e));
  }

  lemma ScanComma(t: string)
    ensures Scan("," + t) == Scan(t)
  {
    var u := "," + t;
    assert QuotedLen(u).None?;
    assert BareLen(u) == 0;
    assert u[1..] == t;
  }

  /** A match that covers exactly `p` is followed by the scan of what comes after. */
  lemma ScanStep(p: string, rest: string, raw: RawPair)
    requires MatchPair(p + rest) == Some(raw) && raw.len == |p|
    ensures Scan(p + rest) == [raw] + Scan(rest)
  {
    assert (p + rest)[|p|..] == rest;
  }

  /** The raw tokens `hstore_to_string` writes for each entry of a Hash. */
  function EncodedPairs(h: seq<Entry>): (r: seq<RawPair>)
    ensures |r| == |h|
  {
    if h == [] then [] else [EncodedPair(h[0])] + EncodedPairs(h[1..])
  }

  /** A match that covers exactly `p`, then a comma, then the scan of what follows. */
  lemma ScanCons(p: string, more: string, raw: RawPair)
    requires MatchPair(p + ("," + more)) == Some(raw) && raw.len == |p|
    ensures Scan(p + ("," + more)) == [raw] + Scan(more)
  {
    ScanStep(p, "," + more, raw);
    ScanComma(more);
  }

  /** Scanning the joined pair texts of a Hash finds exactly its pairs, in order. */
  lemma {:induction false} ScanJoined(h: seq<Entry>)
    ensures Scan(Join(PairTexts(h), ',')) == EncodedPairs(h)
  {
    if |h| == 1 {
      var p := PairText(h[0]);
      MatchPairText(h[0], []);
      assert p + [] == p;
      ScanStep(p, [], EncodedPairs(h)[0]);
    } else if |h| > 1 {
      var p := PairText(h[0]);
      var more := Join(PairTexts(h[1..]), ',');
      assert PairTexts(h)[1..] == PairTexts(h[1..]);
      JoinCons(PairTexts(h), ',');
      MatchPairText(h[0], "," + more);
      ScanCons(p, more, EncodedPairs(h)[0]);
      ScanJoined(h[1..]);
    }
  }

  /** Decoding the raw tokens of a Hash gives back its entries. */
  lemma {:induction false} DecodeEncoded(h: seq<Entry>)
    ensures DecodePairs(EncodedPairs(h)) == h
  {
    if h != [] {
      DecodeEncoded(h[1..]);
      var K, V := EscapeHstore(Some(h[0].key)), EscapeHstore(h[0].value);
      DecodeEscapeHstore(h[0].key);
      if h[0].value.Some? {
        DecodeEscapeHstore(h[0].value.value);
      }
      assert DecodePair(EncodedPair(h[0])) == h[0];
      assert EncodedPairs(h)[1..] == EncodedPairs(h[1..]);
    }
  }

  /** `string_to_hstore(hstore_to_string(h)) == h` for every Hash of text keys
      and text-or-NULL values. */
  lemma HstoreRoundTrip<X>(h: seq<Entry>)
    requires UniqueKeys(h)
    ensures StringToHstore<X>(HstoreToString<X>(Is(h), false)) == Is(h)
  {
    ScanJoined(h);
    DecodeEncoded(h);
    FromPairsUnique(h);
  }

  /** As an array member, the Hash is written as one quoted array element,
      whatever follows it; the database reads that element as the plain
      hstore text, which reads back as the Hash. */
  lemma HstoreArrayMemberRoundTrip<X>(h: seq<Entry>, rest: string)
    requires UniqueKeys(h)
    ensures var t := HstoreToString<X>(Is(h), true).value;
            var plain := HstoreToString<X>(Is(h), false).value;
            ArrayLiteral.ReadItem(t + rest) == Some((ArrayLiteral.PgText(plain), |t|))
            && StringToHstore<X>(Is(plain)) == Is(h)
  {
    var plain := Join(PairTexts(h), ',');
    var t := EscapeHstore(Some(plain));
    assert t == "\"" + Escaped(plain) + "\"";
    ArrayLiteral.ReadItemQuoted(plain, t, rest);
    HstoreRoundTrip<X>(h);
  }

  /** The NULL sentinel: a bare `NULL` (any case) value is SQL NULL, the
      quoted `"NULL"` is the four-letter text, and a key is never NULL. */
  lemma NullSentinel(k: string, bare: string)
    requires IsNullWord(bare)
    ensures DecodePair(RawPair(k, bare, 0)).value == None
    ensures DecodePair(RawPair(k, "\"NULL\"", 0)).value == Some("NULL")
    ensures DecodePair(RawPair(bare, "\"NULL\"", 0)).key == bare
  {
    var q: string := "\"NULL\"";
    assert Unquoted(q) == "NULL";
    assert Count("NULL", '\\') == 0 by {
      assert "NULL"[1..] == "ULL" && "ULL"[1..] == "LL" && "LL"[1..] == "L" && "L"[1..] == [];
    }
    assert |bare| == 4;
    assert bare[0] != '"' && bare[3] != '"';
    assert Unquoted(bare) == bare;
    assert Count(bare, '\\') == 0 by {
      var b1, b2, b3 := bare[1..], bare[2..], bare[3..];
      assert b1[1..] == b2 && b2[1..] == b3 && b3[1..] == [];
      assert bare[0] != '\\' && b1[0] != '\\' && b2[0] != '\\' && b3[0] != '\\';
      assert Count(b3, '\\') == 0;
      assert Count(b2, '\\') == 0;
      assert Count(b1, '\\') == 0;
    }
  }
}
