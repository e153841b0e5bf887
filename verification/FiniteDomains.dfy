/** Dense finite encodings and how they compose: each maps the values of a domain one to one onto the
    codes below its cardinality and refuses every other code. */
module FiniteDomains {
  import opened Wrappers
  import opened Arithmetic
  import opened Sequences

  const U128: nat := 0x1_0000_0000_0000_0000_0000_0000_0000_0000

  datatype DecodeError =
    | OutOfRange(code: nat, cardinality: nat, domain: string)
    | InvalidRefinement(refinement: string, reason: string)

  /** A finite domain: its values, how many there are, and both directions of the encoding. */
  datatype Codec<!T> = Codec(member: T -> bool, cardinality: nat, encode: T -> nat, decode: nat -> Result<T, DecodeError>)

  ghost predicate Encodes<T(!new)>(c: Codec<T>) {
    forall v: T :: c.member(v) ==> c.encode(v) < c.cardinality && c.decode(c.encode(v)) == Success(v)
  }

  ghost predicate Decodes<T(!new)>(c: Codec<T>) {
    forall code: nat :: Exact(c, code)
  }

  ghost predicate Exact<T(!new)>(c: Codec<T>, code: nat) {
    if code < c.cardinality then
      c.decode(code).Success? && c.member(c.decode(code).value) && c.encode(c.decode(code).value) == code
    else c.decode(code).Failure?
  }

  /** Values and codes below the cardinality correspond one to one, and exactly those codes decode. */
  ghost predicate Lawful<T(!new)>(c: Codec<T>) { Encodes(c) && Decodes(c) }

  lemma EncodeOf<T(!new)>(c: Codec<T>, v: T)
    requires Encodes(c) && c.member(v)
    ensures c.encode(v) < c.cardinality && c.decode(c.encode(v)) == Success(v)
  {
  }

  lemma DecodeOf<T(!new)>(c: Codec<T>, code: nat)
    requires Decodes(c)
    ensures Exact(c, code)
  {
  }

  /** Enumeration lists every value once, in code order. */
  method Enumerate<T(!new)>(c: Codec<T>) returns (values: seq<T>)
    requires Lawful(c)
    ensures |values| == c.cardinality
    ensures forall i :: 0 <= i < |values| ==> c.member(values[i]) && c.encode(values[i]) == i
    ensures forall v: T :: c.member(v) ==> v in values
  {
    values := [];
    for code := 0 to c.cardinality
      invariant |values| == code
      invariant forall i :: 0 <= i < code ==> c.decode(i) == Success(values[i])
    {
      DecodeOf(c, code);
      values := values + [c.decode(code).value];
    }
    forall i | 0 <= i < |values|
      ensures c.member(values[i]) && c.encode(values[i]) == i
    {
      DecodeOf(c, i);
    }
    forall v: T | c.member(v)
      ensures v in values
    {
      EncodeOf(c, v);
      assert values[c.encode(v)] == v;
    }
  }

  // ----- Bounded bytes -----

  function BoundedU8(min: nat, max: nat): Codec<int>
    requires min <= 255 && max <= 255
  {
    var cardinality := (if max < min then 0 else max - min) + (if min <= max then 1 else 0);
    Codec((v: int) => min <= v <= max, cardinality,
          (v: int) => if v < min then 0 else v - min,
          (code: nat) => if code >= cardinality then Failure(OutOfRange(code, cardinality, "BoundedU8")) else Success(min + code))
  }

  /** Lawful for every pair of bounds, the empty and the full range included; a decoded value fits a byte. */
  lemma BoundedLawful(min: nat, max: nat, code: nat)
    requires min <= 255 && max <= 255
    ensures Lawful(BoundedU8(min, max))
    ensures BoundedU8(min, max).cardinality <= 256
    ensures BoundedU8(min, max).decode(code).Success? ==> BoundedU8(min, max).decode(code).value <= 255
  {
    var c := BoundedU8(min, max);
    forall v: int | c.member(v)
      ensures c.encode(v) < c.cardinality && c.decode(c.encode(v)) == Success(v)
    {
    }
    forall k: nat
      ensures Exact(c, k)
    {
    }
  }

  /** Codes grow with the values. */
  lemma BoundedOrder(min: nat, max: nat, v: int, w: int)
    requires min <= 255 && max <= 255 && min <= v <= max && min <= w <= max
    ensures BoundedU8(min, max).encode(v) < BoundedU8(min, max).encode(w) <==> v < w
    ensures BoundedU8(min, max).encode(min) == 0
  {
  }

  // ----- Optional -----

  function Optional<T>(c: Codec<T>): Codec<Option<T>> {
    Codec((v: Option<T>) => v.Some? ==> c.member(v.value), c.cardinality + 1,
          (v: Option<T>) => if v.None? then 0 else c.encode(v.value) + 1,
          (code: nat) =>
            if code == 0 then Success(None)
            else if code < c.cardinality + 1 then Present(c.decode(code - 1))
            else Failure(OutOfRange(code, c.cardinality + 1, "Optional")))
  }

  function Present<T>(r: Result<T, DecodeError>): Result<Option<T>, DecodeError> {
    var v :- r;
    Success(Some(v))
  }

  lemma OptionalLawful<T(!new)>(c: Codec<T>)
    requires Lawful(c)
    ensures Lawful(Optional(c))
  {
    var o := Optional(c);
    forall v: Option<T> | o.member(v)
      ensures o.encode(v) < o.cardinality && o.decode(o.encode(v)) == Success(v)
    {
      if v.Some? {
        EncodeOf(c, v.value);
      }
    }
    forall code: nat
      ensures Exact(o, code)
    {
      if 0 < code < o.cardinality {
        DecodeOf(c, code - 1);
      }
    }
  }

  /** Absence comes first, then the values in their order. */
  lemma OptionalOrder<T(!new)>(c: Codec<T>, v: T, w: T)
    ensures Optional(c).encode(None) < Optional(c).encode(Some(v))
    ensures Optional(c).encode(Some(v)) < Optional(c).encode(Some(w)) <==> c.encode(v) < c.encode(w)
  {
  }

  // ----- Pair -----

  function Pair<A, B>(a: Codec<A>, b: Codec<B>): Codec<(A, B)> {
    Codec((v: (A, B)) => a.member(v.0) && b.member(v.1), a.cardinality * b.cardinality,
          (v: (A, B)) => PairEncode(a, b, v),
          (code: nat) => PairDecode(a, b, code))
  }

  function PairEncode<A, B>(a: Codec<A>, b: Codec<B>, v: (A, B)): nat {
    a.encode(v.0) * b.cardinality + b.encode(v.1)
  }

  function PairDecode<A, B>(a: Codec<A>, b: Codec<B>, code: nat): Result<(A, B), DecodeError> {
    if code >= a.cardinality * b.cardinality then Failure(OutOfRange(code, a.cardinality * b.cardinality, "Pair"))
    else
      Decompose(code, b.cardinality, a.cardinality);
      var first :- a.decode(code / b.cardinality);
      var second :- b.decode(code % b.cardinality);
      Success((first, second))
  }

  /** Lawful whatever the factors' cardinalities, zero included: an empty factor empties the pair and
      no code is ever divided by zero. */
  lemma PairLawful<A(!new), B(!new)>(a: Codec<A>, b: Codec<B>)
    requires Lawful(a) && Lawful(b)
    ensures Lawful(Pair(a, b))
  {
    var p := Pair(a, b);
    forall v: (A, B) | p.member(v)
      ensures p.encode(v) < p.cardinality && p.decode(p.encode(v)) == Success(v)
    {
      EncodeOf(a, v.0);
      EncodeOf(b, v.1);
      Compose(a.encode(v.0), b.encode(v.1), b.cardinality, a.cardinality);
    }
    forall code: nat
      ensures Exact(p, code)
    {
      if code < p.cardinality {
        Decompose(code, b.cardinality, a.cardinality);
        DecodeOf(a, code / b.cardinality);
        DecodeOf(b, code % b.cardinality);
      }
    }
  }

  /** Pairs are ordered by their first component, then by their second. */
  lemma PairOrder<A(!new), B(!new)>(a: Codec<A>, b: Codec<B>, p: (A, B), q: (A, B))
    requires Lawful(a) && Lawful(b) && Pair(a, b).member(p) && Pair(a, b).member(q)
    ensures Pair(a, b).encode(p) < Pair(a, b).encode(q) <==>
      a.encode(p.0) < a.encode(q.0) || (a.encode(p.0) == a.encode(q.0) && b.encode(p.1) < b.encode(q.1))
  {
    EncodeOf(b, p.1);
    EncodeOf(b, q.1);
    var x, y := a.encode(p.0), a.encode(q.0);
    if x < y {
      Scale(x, y, b.cardinality);
    } else if y < x {
      Scale(y, x, b.cardinality);
    }
  }

  // ----- Fixed arrays -----

  predicate AllMembers<T>(c: Codec<T>, values: seq<T>) {
    forall i :: 0 <= i < |values| ==> c.member(values[i])
  }

  /** The first value is the most significant digit. */
  function EncodeArray<T>(c: Codec<T>, values: seq<T>): nat {
    if values == [] then 0
    else EncodeArray(c, values[..|values| - 1]) * c.cardinality + c.encode(values[|values| - 1])
  }

  /** Digits come off the low end, so the last value is decoded first. */
  function DecodeDigits<T>(c: Codec<T>, n: nat, code: nat): Result<seq<T>, DecodeError>
    requires n > 0 ==> c.cardinality > 0
  {
    if n == 0 then Success([])
    else
      var last :- c.decode(code % c.cardinality);
      var front :- DecodeDigits(c, n - 1, code / c.cardinality);
      Success(front + [last])
  }

  function DecodeArray<T>(c: Codec<T>, n: nat, code: nat): Result<seq<T>, DecodeError> {
    if code >= Power(c.cardinality, n) then Failure(OutOfRange(code, Power(c.cardinality, n), "FixedArray"))
    else
      assert n > 0 ==> c.cardinality > 0;
      DecodeDigits(c, n, code)
  }

  function FixedArray<T>(c: Codec<T>, n: nat): Codec<seq<T>> {
    Codec((values: seq<T>) => |values| == n && AllMembers(c, values), Power(c.cardinality, n),
          (values: seq<T>) => EncodeArray(c, values),
          (code: nat) => DecodeArray(c, n, code))
  }

  lemma {:induction false} ArrayEncodes<T(!new)>(c: Codec<T>, values: seq<T>)
    requires Lawful(c) && AllMembers(c, values)
    ensures EncodeArray(c, values) < Power(c.cardinality, |values|)
    ensures DecodeArray(c, |values|, EncodeArray(c, values)) == Success(values)
  {
    if values != [] {
      var front, last := values[..|values| - 1], values[|values| - 1];
      ArrayEncodes(c, front);
      EncodeOf(c, last);
      Compose(EncodeArray(c, front), c.encode(last), c.cardinality, Power(c.cardinality, |front|));
      assert values == front + [last];
    }
  }

  lemma {:induction false} ArrayDecodes<T(!new)>(c: Codec<T>, n: nat, code: nat)
    requires Lawful(c) && code < Power(c.cardinality, n)
    ensures var r := DecodeArray(c, n, code);
      r.Success? && |r.value| == n && AllMembers(c, r.value) && EncodeArray(c, r.value) == code
  {
    if n > 0 {
      Decompose(code, c.cardinality, Power(c.cardinality, n - 1));
      DecodeOf(c, code % c.cardinality);
      ArrayDecodes(c, n - 1, code / c.cardinality);
    }
  }

  lemma ArrayLawful<T(!new)>(c: Codec<T>, n: nat)
    requires Lawful(c)
    ensures Lawful(FixedArray(c, n))
  {
    var f := FixedArray(c, n);
    forall values: seq<T> | f.member(values)
      ensures f.encode(values) < f.cardinality && f.decode(f.encode(values)) == Success(values)
    {
      ArrayEncodes(c, values);
    }
    forall code: nat
      ensures Exact(f, code)
    {
      if code < f.cardinality {
        ArrayDecodes(c, n, code);
      }
    }
  }

  /** Arrays are ordered by their first difference. */
  lemma {:induction false} ArrayOrder<T(!new)>(c: Codec<T>, u: seq<T>, v: seq<T>, k: nat)
    requires Lawful(c) && AllMembers(c, u) && AllMembers(c, v) && |u| == |v|
    requires k < |u| && u[..k] == v[..k] && c.encode(u[k]) < c.encode(v[k])
    ensures EncodeArray(c, u) < EncodeArray(c, v)
  {
    var last := |u| - 1;
    EncodeOf(c, u[last]);
    if k < last {
      assert u[..last][..k] == u[..k] && v[..last][..k] == v[..k];
      ArrayOrder(c, u[..last], v[..last], k);
      Scale(EncodeArray(c, u[..last]), EncodeArray(c, v[..last]), c.cardinality);
    }
  }

  /** Encoding an array whose cardinality fits never leaves u128. */
  lemma ArrayStaysInRange<T(!new)>(c: Codec<T>, values: seq<T>, i: nat)
    requires Lawful(c) && AllMembers(c, values) && i <= |values| && Power(c.cardinality, |values|) < U128
    ensures EncodeArray(c, values[..i]) < U128
  {
    if i > 0 {
      EncodeOf(c, values[0]);
      ArrayEncodes(c, values[..i]);
      PowerGrows(c.cardinality, i, |values|);
    }
  }

  method FoldArray<T(!new)>(c: Codec<T>, values: seq<T>) returns (code: nat)
    requires Lawful(c) && AllMembers(c, values) && Power(c.cardinality, |values|) < U128
    ensures code == EncodeArray(c, values)
  {
    code := 0;
    for i := 0 to |values|
      invariant code == EncodeArray(c, values[..i]) < U128
    {
      assert values[..i + 1][..i] == values[..i];
      ArrayStaysInRange(c, values, i + 1);
      code := code * c.cardinality + c.encode(values[i]);
    }
    assert values[..|values|] == values;
  }

  method UnfoldArray<T(!new)>(c: Codec<T>, n: nat, input: nat) returns (r: Result<seq<T>, DecodeError>)
    ensures r == DecodeArray(c, n, input)
  {
    if input >= Power(c.cardinality, n) {
      return Failure(OutOfRange(input, Power(c.cardinality, n), "FixedArray"));
    }
    assert n > 0 ==> c.cardinality > 0;
    var code: nat := input;
    JoinedNothing(DecodeDigits(c, n, input));
    var reversed: seq<T> := [];
    for i := 0 to n
      invariant |reversed| == i
      invariant DecodeDigits(c, n, input) == Joined(DecodeDigits(c, n - i, code), Reversed(reversed))
    {
      var digit := c.decode(code % c.cardinality);
      if digit.Failure? {
        return Failure(digit.error);
      }
      ghost var before := reversed;
      reversed := reversed + [digit.value];
      code := code / c.cardinality;
      assert Reversed(reversed) == [digit.value] + Reversed(before);
      assert forall front: seq<T> :: front + [digit.value] + Reversed(before) == front + ([digit.value] + Reversed(before));
    }
    assert [] + Reversed(reversed) == Reversed(reversed);
    r := Success(Reversed(reversed));
  }

  lemma JoinedNothing<T>(front: Result<seq<T>, DecodeError>)
    ensures Joined(front, Reversed([])) == front
  {
    if front.Success? {
      assert front.value + Reversed([]) == front.value;
    }
  }

  ghost function Joined<T>(front: Result<seq<T>, DecodeError>, back: seq<T>): Result<seq<T>, DecodeError> {
    match front
    case Success(values) => Success(values + back)
    case Failure(e) => Failure(e)
  }

  // ----- Bit widths -----

  /** The number of binary digits of `n`. */
  function Digits(n: nat): (w: nat)
    ensures n < Power(2, w) && (w > 0 ==> Power(2, w - 1) <= n)
  {
    if n == 0 then 0 else 1 + Digits(n / 2)
  }

  function BitWidth(cardinality: nat): nat { Digits(if cardinality == 0 then 0 else cardinality - 1) }

  /** The width is the least that holds every code. */
  lemma BitWidthIsLeast(cardinality: nat, width: nat)
    ensures cardinality <= Power(2, width) <==> BitWidth(cardinality) <= width
  {
    var w := BitWidth(cardinality);
    if w <= width {
      PowerGrows(2, w, width);
    } else {
      PowerGrows(2, width, w - 1);
    }
  }

  // ----- Sets as membership masks -----

  /** Bit `e` of a mask. */
  predicate HasBit(bits: nat, e: nat) {
    if e == 0 then bits % 2 == 1 else HasBit(bits / 2, e - 1)
  }

  /** The mask with bit `e` switched on. */
  function SetBit(bits: nat, e: nat): nat {
    if e == 0 then bits - bits % 2 + 1 else SetBit(bits / 2, e - 1) * 2 + bits % 2
  }

  /** Bit `e` is the digit of weight two to the `e`. */
  lemma {:induction false} HasBitMeans(bits: nat, e: nat, high: nat, low: nat)
    requires bits == high * Power(2, e) + low && low < Power(2, e)
    ensures HasBit(bits, e) <==> high % 2 == 1
  {
    if e > 0 {
      var weight := Power(2, e - 1);
      assert high * Power(2, e) == high * weight * 2 by {
        Associate(high, weight, 2);
      }
      HasBitMeans(bits / 2, e - 1, high, low / 2);
    }
  }

  lemma {:induction false} SetBitExact(bits: nat, e: nat, f: nat)
    ensures HasBit(SetBit(bits, e), f) <==> f == e || HasBit(bits, f)
  {
    if e > 0 && f > 0 {
      SetBitExact(bits / 2, e - 1, f - 1);
      assert SetBit(bits, e) / 2 == SetBit(bits / 2, e - 1);
    } else if e == 0 && f > 0 {
      assert SetBit(bits, 0) / 2 == bits / 2;
    }
  }

  lemma {:induction false} SetBitBound(bits: nat, e: nat, n: nat)
    requires bits < Power(2, n) && e < n
    ensures SetBit(bits, e) < Power(2, n)
  {
    if e > 0 {
      SetBitBound(bits / 2, e - 1, n - 1);
    }
  }

  /** A mask is determined by its bits. */
  lemma {:induction false} BitsDetermine(u: nat, v: nat, n: nat)
    requires u < Power(2, n) && v < Power(2, n)
    requires forall e: nat :: e < n ==> (HasBit(u, e) <==> HasBit(v, e))
    ensures u == v
  {
    if n > 0 {
      forall e: nat | e < n - 1
        ensures HasBit(u / 2, e) <==> HasBit(v / 2, e)
      {
        assert HasBit(u, e + 1) <==> HasBit(v, e + 1);
      }
      BitsDetermine(u / 2, v / 2, n - 1);
      assert HasBit(u, 0) <==> HasBit(v, 0);
    }
  }

  function MaskOf<T>(c: Codec<T>, values: seq<T>): nat {
    if values == [] then 0 else SetBit(MaskOf(c, values[..|values| - 1]), c.encode(values[|values| - 1]))
  }

  predicate Contains<T>(c: Codec<T>, bits: nat, v: T) { HasBit(bits, c.encode(v)) }

  function FiniteSet<T>(c: Codec<T>): Codec<nat> {
    var cardinality := Power(2, c.cardinality);
    Codec((bits: nat) => bits < cardinality, cardinality, (bits: nat) => bits,
          (code: nat) => if code >= cardinality then Failure(OutOfRange(code, cardinality, "FiniteSet")) else Success(code))
  }

  method FromValues<T(!new)>(c: Codec<T>, values: seq<T>) returns (bits: nat)
    requires Lawful(c) && AllMembers(c, values) && c.cardinality < 128
    ensures bits == MaskOf(c, values)
  {
    bits := 0;
    for i := 0 to |values|
      invariant bits == MaskOf(c, values[..i])
    {
      assert values[..i + 1][..i] == values[..i];
      bits := SetBit(bits, c.encode(values[i]));
    }
    assert values[..|values|] == values;
  }

  lemma {:induction false} NoBits(e: nat)
    ensures !HasBit(0, e)
  {
    if e > 0 {
      NoBits(e - 1);
    }
  }

  /** A mask made from values is a value of the set domain and contains exactly those values, however
      often they were listed. */
  lemma {:induction false} MaskExact<T(!new)>(c: Codec<T>, values: seq<T>, v: T)
    requires Lawful(c) && AllMembers(c, values) && c.member(v)
    ensures MaskOf(c, values) < Power(2, c.cardinality)
    ensures Contains(c, MaskOf(c, values), v) <==> v in values
  {
    if values == [] {
      NoBits(c.encode(v));
      PowerGrows(2, 0, c.cardinality);
    } else {
      var front, last := values[..|values| - 1], values[|values| - 1];
      MaskExact(c, front, v);
      EncodeOf(c, v);
      EncodeOf(c, last);
      SetBitExact(MaskOf(c, front), c.encode(last), c.encode(v));
      SetBitBound(MaskOf(c, front), c.encode(last), c.cardinality);
      assert values == front + [last];
    }
  }

  /** Sets with the same members have the same mask. */
  lemma MembersDetermine<T(!new)>(c: Codec<T>, u: nat, v: nat)
    requires Lawful(c) && u < Power(2, c.cardinality) && v < Power(2, c.cardinality)
    requires forall x: T :: c.member(x) ==> (Contains(c, u, x) <==> Contains(c, v, x))
    ensures u == v
  {
    forall e: nat | e < c.cardinality
      ensures HasBit(u, e) <==> HasBit(v, e)
    {
      DecodeOf(c, e);
      var x := c.decode(e).value;
      assert Contains(c, u, x) <==> Contains(c, v, x);
    }
    BitsDetermine(u, v, c.cardinality);
  }

  /** The values a mask contains among the first `n` codes. */
  function MembersBelow<T>(c: Codec<T>, bits: nat, n: nat): seq<T> {
    if n == 0 then []
    else
      MembersBelow(c, bits, n - 1)
      + if HasBit(bits, n - 1) && c.decode(n - 1).Success? then [c.decode(n - 1).value] else []
  }

  lemma {:induction false} MembersListed<T(!new)>(c: Codec<T>, bits: nat, n: nat, x: T)
    requires Lawful(c) && n <= c.cardinality && c.member(x)
    ensures AllMembers(c, MembersBelow(c, bits, n))
    ensures x in MembersBelow(c, bits, n) <==> c.encode(x) < n && Contains(c, bits, x)
  {
    if n > 0 {
      MembersListed(c, bits, n - 1, x);
      DecodeOf(c, n - 1);
      EncodeOf(c, x);
    }
  }

  /** Every mask below the cardinality is the mask of a set of values, so masks and sets correspond. */
  lemma MaskRoundTrip<T(!new)>(c: Codec<T>, bits: nat)
    requires Lawful(c) && bits < Power(2, c.cardinality)
    ensures AllMembers(c, MembersBelow(c, bits, c.cardinality))
    ensures MaskOf(c, MembersBelow(c, bits, c.cardinality)) == bits
  {
    var values := MembersBelow(c, bits, c.cardinality);
    if c.cardinality > 0 {
      DecodeOf(c, 0);
      MembersListed(c, bits, c.cardinality, c.decode(0).value);
      MaskExact(c, values, c.decode(0).value);
    }
    forall x: T | c.member(x)
      ensures Contains(c, MaskOf(c, values), x) <==> Contains(c, bits, x)
    {
      EncodeOf(c, x);
      MembersListed(c, bits, c.cardinality, x);
      MaskExact(c, values, x);
    }
    MembersDetermine(c, MaskOf(c, values), bits);
  }

  lemma WordSize()
    ensures Power(2, 128) == U128
  {
    assert Power(2, 4) == 16 && Power(2, 8) == 256;
    PowerAdd(2, 8, 8);
    PowerAdd(2, 16, 16);
    PowerAdd(2, 32, 32);
    PowerAdd(2, 64, 64);
  }

  lemma SetLawful<T(!new)>(c: Codec<T>)
    requires c.cardinality < 128
    ensures Lawful(FiniteSet(c)) && FiniteSet(c).cardinality < U128
  {
    PowerGrows(2, c.cardinality, 127);
    WordSize();
    assert Power(2, 128) == Power(2, 127) * 2;
  }
}
