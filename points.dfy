/**
 * `Points::read` and `Points::interpolate` (src/points.rs): decoding the
 * correspondence-point records of the CSV file into a "human" and an "otter"
 * point list, and interpolating between the two lists.
 *
 * Coordinates are `real`: the f32 rounding of the source is not modelled.
 */
module Points {
  import opened Wrappers
  import opened Text
  import opened Ints

  /** One record as the CSV reader yields it: its fields, untrimmed. */
  type Record = seq<string>

  /** A parser of the Rust standard library (`f32::from_str`, `u32::from_str`), passed in. */
  type Parser<T> = string -> Option<T>

  datatype Point = Point(x: real, y: real)

  /** Two point lists; index `i` of one corresponds to index `i` of the other. */
  datatype Points = Points(human: seq<Point>, otter: seq<Point>)

  /** The panics of `read`: `assert_eq!(record.len(), 4)` and `.expect(s)` on a field. */
  datatype ReadError =
    | FieldCount(found: nat)
    | BadField(text: string)

  /** The header record that is skipped when it comes first. */
  const Header: Record := ["hx", "hy", "ox", "oy"]

  /** The records that are decoded: all, except a first record equal to the header. */
  function Kept(records: seq<Record>): (kept: seq<Record>)
    ensures |kept| == |records| - (if records != [] && records[0] == Header then 1 else 0)
    ensures kept == records[|records| - |kept|..]
  {
    if records != [] && records[0] == Header then records[1..] else records
  }

  /**
   * One field: trimmed, then parsed as f32, and failing that as u32 (converted
   * to f32); when neither parses, the failure carries the trimmed text.
   */
  function ParseField(s: string, float: Parser<real>, uint: Parser<u32>): (r: Result<real, ReadError>)
    ensures r.Err? <==> float(Trim(s)).None? && uint(Trim(s)).None?
    ensures r.Err? ==> r.error == BadField(Trim(s))
    ensures float(Trim(s)).Some? ==> r == Ok(float(Trim(s)).value)
    ensures float(Trim(s)).None? && uint(Trim(s)).Some? ==> r == Ok(uint(Trim(s)).value as int as real)
  {
    var t := Trim(s);
    match float(t)
    case Some(v) => Ok(v)
    case None =>
      match uint(t)
      case Some(n) => Ok(n as int as real)
      case None => Err(BadField(t))
  }

  /** A field parses to `v`. */
  predicate ParsesTo(s: string, float: Parser<real>, uint: Parser<u32>, v: real) {
    ParseField(s, float, uint) == Ok(v)
  }

  /**
   * The `floats` iterator drained in order: every field trimmed and parsed;
   * the first field that does not parse is the failure.
   */
  function ParseFields(fields: seq<string>, float: Parser<real>, uint: Parser<u32>): (r: Result<seq<real>, ReadError>)
    ensures r.Ok? <==> forall k :: 0 <= k < |fields| ==> ParseField(fields[k], float, uint).Ok?
    ensures r.Ok? ==>
      |r.value| == |fields| &&
      forall k :: 0 <= k < |fields| ==> ParseField(fields[k], float, uint) == Ok(r.value[k])
  {
    if fields == [] then Ok([])
    else
      match ParseField(fields[0], float, uint)
      case Err(e) => Err(e)
      case Ok(v) =>
        match ParseFields(fields[1..], float, uint)
        case Err(e) => Err(e)
        case Ok(vs) =>
          assert forall k :: 0 < k < |fields| ==> fields[k] == fields[1..][k - 1];
          Ok([v] + vs)
  }

  /** A failure of `ParseFields` is the failure of the first field that does not parse. */
  lemma {:induction false} ParseFieldsFirstError(fields: seq<string>, float: Parser<real>, uint: Parser<u32>) returns (k: nat)
    requires ParseFields(fields, float, uint).Err?
    ensures k < |fields| && ParseField(fields[k], float, uint) == Err(ParseFields(fields, float, uint).error)
    ensures forall m :: 0 <= m < k ==> ParseField(fields[m], float, uint).Ok?
  {
    if ParseField(fields[0], float, uint).Err? {
      k := 0;
    } else {
      var k' := ParseFieldsFirstError(fields[1..], float, uint);
      k := k' + 1;
      assert forall m :: 0 < m < |fields| ==> fields[m] == fields[1..][m - 1];
    }
  }

  /**
   * One record `(f0, f1, f2, f3)` becomes the pair of points
   * `((f0, f1), (f2, f3))`; a record without exactly four fields fails
   * before any field is parsed.
   */
  function DecodeRecord(rec: Record, float: Parser<real>, uint: Parser<u32>): (r: Result<(Point, Point), ReadError>)
    ensures r.Ok? <==> |rec| == 4 && forall k :: 0 <= k < 4 ==> ParseField(rec[k], float, uint).Ok?
    ensures r.Ok? ==>
      ParsesTo(rec[0], float, uint, r.value.0.x) && ParsesTo(rec[1], float, uint, r.value.0.y) &&
      ParsesTo(rec[2], float, uint, r.value.1.x) && ParsesTo(rec[3], float, uint, r.value.1.y)
    ensures |rec| != 4 ==> r == Err(FieldCount(|rec|))
    ensures |rec| == 4 && r.Err? ==>
      ParseFields(rec, float, uint).Err? && r.error == ParseFields(rec, float, uint).error
  {
    if |rec| != 4 then Err(FieldCount(|rec|))
    else
      match ParseFields(rec, float, uint)
      case Err(e) => Err(e)
      case Ok(v) => Ok((Point(v[0], v[1]), Point(v[2], v[3])))
  }

  /**
   * Decodes the records in order and unzips the pairs: on success record `i`
   * gives `human[i]` and `otter[i]`.
   */
  function DecodeAll(rs: seq<Record>, float: Parser<real>, uint: Parser<u32>): (r: Result<Points, ReadError>)
    ensures r.Ok? <==> forall i :: 0 <= i < |rs| ==> DecodeRecord(rs[i], float, uint).Ok?
    ensures r.Ok? ==>
      |r.value.human| == |r.value.otter| == |rs| &&
      forall i :: 0 <= i < |rs| ==>
        DecodeRecord(rs[i], float, uint) == Ok((r.value.human[i], r.value.otter[i]))
  {
    if rs == [] then Ok(Points([], []))
    else
      match DecodeRecord(rs[0], float, uint)
      case Err(e) => Err(e)
      case Ok(pair) =>
        match DecodeAll(rs[1..], float, uint)
        case Err(e) => Err(e)
        case Ok(tail) =>
          assert forall i :: 0 < i < |rs| ==> rs[i] == rs[1..][i - 1];
          Ok(Points([pair.0] + tail.human, [pair.1] + tail.otter))
  }

  /** A failure of `DecodeAll` is the failure of the first record that does not decode. */
  lemma {:induction false} DecodeAllFirstError(rs: seq<Record>, float: Parser<real>, uint: Parser<u32>) returns (i: nat)
    requires DecodeAll(rs, float, uint).Err?
    ensures i < |rs| && DecodeRecord(rs[i], float, uint) == Err(DecodeAll(rs, float, uint).error)
    ensures forall m :: 0 <= m < i ==> DecodeRecord(rs[m], float, uint).Ok?
  {
    if DecodeRecord(rs[0], float, uint).Err? {
      i := 0;
    } else {
      var i' := DecodeAllFirstError(rs[1..], float, uint);
      i := i' + 1;
      assert forall m :: 0 < m < |rs| ==> rs[m] == rs[1..][m - 1];
    }
  }

  /**
   * `Points::read`, applied to the records the CSV reader yields: `skip` is 1
   * when the first record is the header and 0 otherwise, and record
   * `skip + i` gives `human[i]` and `otter[i]`.
   */
  function Read(records: seq<Record>, float: Parser<real>, uint: Parser<u32>): (r: Result<Points, ReadError>)
    ensures var skip := if records != [] && records[0] == Header then 1 else 0;
      r.Ok? <==> forall i :: skip <= i < |records| ==> DecodeRecord(records[i], float, uint).Ok?
    ensures var skip := if records != [] && records[0] == Header then 1 else 0;
      r.Ok? ==>
        |r.value.human| == |r.value.otter| == |records| - skip &&
        forall i :: 0 <= i < |records| - skip ==>
          DecodeRecord(records[skip + i], float, uint) == Ok((r.value.human[i], r.value.otter[i]))
    ensures r == DecodeAll(Kept(records), float, uint)
  {
    var kept := Kept(records);
    assert forall i :: 0 <= i < |kept| ==> kept[i] == records[|records| - |kept| + i];
    DecodeAll(kept, float, uint)
  }

  /**
   * A header record at any index but the first is kept and decoded like any
   * other record, so reading fails when "hx" is not a number.
   */
  lemma LaterHeaderFails(records: seq<Record>, i: nat, float: Parser<real>, uint: Parser<u32>)
    requires 0 < i < |records| && records[i] == Header
    requires float("hx").None? && uint("hx").None?
    ensures Read(records, float, uint).Err?
  {
    var kept := Kept(records);
    assert kept[i - (|records| - |kept|)] == Header;
    assert Trim("hx") == "hx";
    assert ParseField(Header[0], float, uint).Err?;
  }

  /** Whitespace around a field does not change what it parses to. */
  lemma ParseIgnoresPadding(pre: string, s: string, post: string, float: Parser<real>, uint: Parser<u32>)
    requires AllWhitespace(pre) && AllWhitespace(post)
    ensures ParseField(pre + s + post, float, uint) == ParseField(s, float, uint)
  {
    TrimAbsorbsPadding(pre, s, post);
  }

  // ---------------------------------------------------------------------------
  // Interpolation

  /** The `interpolation` crate's `Lerp` for floats: `a + (b - a) * r`. */
  function Lerp(a: real, b: real, r: real): real {
    a + (b - a) * r
  }

  function LerpPoint(a: Point, b: Point, r: real): Point {
    Point(Lerp(a.x, b.x, r), Lerp(a.y, b.y, r))
  }

  function Min(a: nat, b: nat): nat {
    if a <= b then a else b
  }

  /** `human.iter().zip(otter)` lerped at ratio `r`: the zip stops at the shorter list. */
  function Configuration(human: seq<Point>, otter: seq<Point>, r: real): (c: seq<Point>)
    ensures |c| == Min(|human|, |otter|)
    ensures forall i :: 0 <= i < |c| ==> c[i] == LerpPoint(human[i], otter[i], r)
  {
    seq(Min(|human|, |otter|), i requires 0 <= i < Min(|human|, |otter|) => LerpPoint(human[i], otter[i], r))
  }

  /**
   * The ratios `k / (steps - 1)` for `k` in `0..steps`. With `steps == 0` the
   * division is never evaluated; `steps == 1` divides zero by zero.
   */
  function Ratios(steps: nat): (ratios: seq<real>)
    requires steps != 1
    ensures |ratios| == steps
    ensures forall k :: 0 <= k < steps ==> ratios[k] * (steps - 1) as real == k as real
  {
    seq(steps, k requires 0 <= k < steps => k as real / (steps - 1) as real)
  }

  datatype Interpolation = Interpolation(ratios: seq<real>, configs: seq<seq<Point>>)

  /** `Points::interpolate`: one ratio and one lerped configuration per step. */
  function Interpolate(p: Points, steps: nat): (r: Interpolation)
    requires steps != 1
    ensures r.ratios == Ratios(steps) && |r.configs| == steps
    ensures forall k :: 0 <= k < steps ==>
      |r.configs[k]| == Min(|p.human|, |p.otter|) &&
      forall i :: 0 <= i < |r.configs[k]| ==>
        r.configs[k][i] == LerpPoint(p.human[i], p.otter[i], r.ratios[k])
  {
    var ratios := Ratios(steps);
    Interpolation(ratios, seq(steps, k requires 0 <= k < steps => Configuration(p.human, p.otter, ratios[k])))
  }

  /** Dividing by a positive number keeps the order. */
  lemma DivideKeepsOrder(a: real, b: real, d: real)
    requires d > 0.0 && a <= b
    ensures a / d <= b / d
    ensures a < b ==> a / d < b / d
  {
  }

  /** The ratios run from 0 to 1, strictly increasing, and stay within [0, 1]. */
  lemma RatiosSpan(steps: nat)
    requires steps >= 2
    ensures Ratios(steps)[0] == 0.0 && Ratios(steps)[steps - 1] == 1.0
    ensures forall k :: 0 <= k < steps ==> 0.0 <= Ratios(steps)[k] <= 1.0
    ensures forall i, j :: 0 <= i < j < steps ==> Ratios(steps)[i] < Ratios(steps)[j]
  {
    var rs := Ratios(steps);
    var d := (steps - 1) as real;
    forall k | 0 <= k < steps ensures 0.0 <= rs[k] <= 1.0 {
      DivideKeepsOrder(0.0, k as real, d);
      DivideKeepsOrder(k as real, d, d);
    }
    forall i, j | 0 <= i < j < steps ensures rs[i] < rs[j] {
      DivideKeepsOrder(i as real, j as real, d);
    }
  }

  /** Spelled the other way round: the lerp is `a * (1 - r) + b * r`. */
  lemma LerpAffine(a: real, b: real, r: real)
    ensures Lerp(a, b, r) == a * (1.0 - r) + b * r
  {
  }

  /** A product of two non-negative numbers is non-negative. */
  lemma ProductSign(x: real, y: real)
    requires 0.0 <= x && 0.0 <= y
    ensures 0.0 <= x * y
  {
  }

  /** For a ratio in [0, 1] the lerped value lies between the two endpoints. */
  lemma LerpBetween(a: real, b: real, r: real)
    requires 0.0 <= r <= 1.0
    ensures a <= b ==> a <= Lerp(a, b, r) <= b
    ensures b <= a ==> b <= Lerp(a, b, r) <= a
  {
    var x := b - a;
    assert x * r + x * (1.0 - r) == x;
    if a <= b {
      ProductSign(x, r);
      ProductSign(x, 1.0 - r);
    } else {
      ProductSign(-x, r);
      ProductSign(-x, 1.0 - r);
      assert (-x) * r == -(x * r) && (-x) * (1.0 - r) == -(x * (1.0 - r));
    }
  }

  /**
   * For point lists of equal length, as `Read` produces them, the first
   * configuration is the human points and the last the otter points.
   */
  lemma InterpolateEndpoints(p: Points, steps: nat)
    requires steps >= 2 && |p.human| == |p.otter|
    ensures Interpolate(p, steps).configs[0] == p.human
    ensures Interpolate(p, steps).configs[steps - 1] == p.otter
  {
    RatiosSpan(steps);
  }

  /** A successful read gives lists of equal length, so every configuration has one point per record. */
  lemma ReadThenInterpolate(records: seq<Record>, float: Parser<real>, uint: Parser<u32>, steps: nat)
    requires steps != 1 && Read(records, float, uint).Ok?
    ensures forall k :: 0 <= k < steps ==>
      |Interpolate(Read(records, float, uint).value, steps).configs[k]| == |Kept(records)|
  {
  }
}
