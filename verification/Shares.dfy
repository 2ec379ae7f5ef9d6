/** One participant's data as it travels between hosts, and its parsing. The three fields whose
    types populate_decoder checks are untyped JSON values; the others are strings. */
module Shares {
  import opened Wrappers
  import opened Interpolation

  /** A JSON value; booleans are integers to isinstance(v, int). */
  datatype Value = Null | Bool(b: bool) | Int(n: int) | Text(s: string) | List(items: seq<Value>)

  datatype Share = Share(keys: Value, creationDate: string, owner: string, name: string,
                         uuid: string, treshold: Value, shares: Value, secretHash: Option<string>)

  function AsInt(v: Value): Option<int> {
    match v
    case Int(n) => Some(n)
    case Bool(b) => Some(if b then 1 else 0)
    case _ => None
  }

  /** `==` on JSON values, for which a boolean equals the integer it counts as. */
  predicate SameValue(a: Value, b: Value) {
    if AsInt(a).Some? && AsInt(b).Some? then AsInt(a) == AsInt(b)
    else if a.List? && b.List? then
      |a.items| == |b.items| && forall i :: 0 <= i < |a.items| ==> SameValue(a.items[i], b.items[i])
    else a == b
  }

  lemma {:induction false} SameValueReflexive(a: Value)
    ensures SameValue(a, a)
  {
    if a.List? {
      forall i | 0 <= i < |a.items|
        ensures SameValue(a.items[i], a.items[i])
      {
        SameValueReflexive(a.items[i]);
      }
    }
  }

  /** `==` on two payloads. */
  predicate SameShare(a: Share, b: Share) {
    && SameValue(a.keys, b.keys) && SameValue(a.treshold, b.treshold) && SameValue(a.shares, b.shares)
    && (a.creationDate, a.owner, a.name, a.uuid, a.secretHash) ==
         (b.creationDate, b.owner, b.name, b.uuid, b.secretHash)
  }

  /** Payloads that compare equal mean the same to every decoder. */
  lemma SameShareSameKeys(a: Share, b: Share)
    requires SameShare(a, b)
    ensures AsKeys(a.keys) == AsKeys(b.keys) && AsInt(a.treshold) == AsInt(b.treshold) &&
            AsInt(a.shares) == AsInt(b.shares)
  {
    var v, w := a.keys, b.keys;
    if v.List? && w.List? && |v.items| == |w.items| {
      forall i | 0 <= i < |v.items|
        ensures AsPoint(v.items[i]) == AsPoint(w.items[i])
      {
        assert SameValue(v.items[i], w.items[i]);
      }
      if AsKeys(v).Some? && AsKeys(w).Some? {
        assert AsKeys(v).value == AsKeys(w).value;
      }
    }
  }

  /** A list of exactly two integers. */
  function AsPoint(v: Value): Option<Point> {
    if v.List? && |v.items| == 2 && AsInt(v.items[0]).Some? && AsInt(v.items[1]).Some?
    then Some(Point(AsInt(v.items[0]).value, AsInt(v.items[1]).value))
    else None
  }

  /** A non-empty list of points. */
  function AsKeys(v: Value): (r: Option<seq<Point>>)
    ensures r.Some? ==> v.List? && |r.value| == |v.items| > 0
    ensures r.Some? ==> forall i :: 0 <= i < |v.items| ==> AsPoint(v.items[i]) == Some(r.value[i])
    ensures r.None? ==> !v.List? || v.items == [] || exists i :: 0 <= i < |v.items| && AsPoint(v.items[i]).None?
  {
    if !v.List? || v.items == [] then None
    else if exists i :: 0 <= i < |v.items| && AsPoint(v.items[i]).None? then None
    else Some(seq(|v.items|, i requires 0 <= i < |v.items| => AsPoint(v.items[i]).value))
  }

  /** The value is this integer; True is 1 and False is 0. */
  predicate IsInteger(v: Value, n: int) {
    v == Int(n) || (v == Bool(true) && n == 1) || (v == Bool(false) && n == 0)
  }

  /** The value is a list of two integers, the coordinates of the point. */
  predicate IsPoint(v: Value, pt: Point) {
    v.List? && |v.items| == 2 && IsInteger(v.items[0], pt.x) && IsInteger(v.items[1], pt.y)
  }

  /** The value is the list of these points. */
  predicate IsKeys(v: Value, pts: seq<Point>) {
    pts != [] && v.List? && |v.items| == |pts| && forall i :: 0 <= i < |pts| ==> IsPoint(v.items[i], pts[i])
  }

  /** Parsing finds exactly what the value is. */
  lemma ParsesIff(v: Value, n: int, pts: seq<Point>)
    ensures AsInt(v) == Some(n) <==> IsInteger(v, n)
    ensures AsKeys(v) == Some(pts) <==> IsKeys(v, pts)
  {
    if IsKeys(v, pts) {
      forall i | 0 <= i < |v.items|
        ensures AsPoint(v.items[i]) == Some(pts[i])
      {
        assert IsPoint(v.items[i], pts[i]);
      }
      assert AsKeys(v).value == pts;
    }
    if AsKeys(v) == Some(pts) {
      forall i | 0 <= i < |pts|
        ensures IsPoint(v.items[i], pts[i])
      {
        assert AsPoint(v.items[i]) == Some(pts[i]);
      }
    }
  }

  /** Well-formed payloads with equal meanings compare equal. */
  lemma SameMeaningSameShare(a: Share, b: Share)
    requires AsKeys(a.keys).Some? && AsKeys(a.keys) == AsKeys(b.keys)
    requires AsInt(a.treshold).Some? && AsInt(a.treshold) == AsInt(b.treshold)
    requires AsInt(a.shares).Some? && AsInt(a.shares) == AsInt(b.shares)
    requires (a.creationDate, a.owner, a.name, a.uuid, a.secretHash) ==
               (b.creationDate, b.owner, b.name, b.uuid, b.secretHash)
    ensures SameShare(a, b)
  {
    forall i | 0 <= i < |a.keys.items|
      ensures SameValue(a.keys.items[i], b.keys.items[i])
    {
      var v, w := a.keys.items[i], b.keys.items[i];
      assert AsPoint(v) == AsPoint(w) == Some(AsKeys(a.keys).value[i]);
      assert SameValue(v.items[0], w.items[0]) && SameValue(v.items[1], w.items[1]);
    }
  }

  function PointValue(pt: Point): Value {
    List([Int(pt.x), Int(pt.y)])
  }

  function KeysValue(pts: seq<Point>): Value {
    List(seq(|pts|, i requires 0 <= i < |pts| => PointValue(pts[i])))
  }

  /** Parsing the keys a dealer sends gives the dealer's points back. */
  lemma KeysRoundTrip(pts: seq<Point>)
    requires pts != []
    ensures AsKeys(KeysValue(pts)) == Some(pts)
  {
    var v := KeysValue(pts);
    forall i | 0 <= i < |v.items|
      ensures AsPoint(v.items[i]) == Some(pts[i])
    {
      assert v.items[i] == PointValue(pts[i]);
    }
    var r := AsKeys(v);
    assert r.value == pts;
  }
}
