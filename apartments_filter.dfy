/**
 * The derived values of the apartments filter composable, as pure functions
 * of the apartment list, the filter record and the debounced address query:
 * range validation (`errors`), range normalisation and the filter predicate
 * (`filteredApartments`), and the dataset bounds (`areaBounds`, `roomsBounds`).
 * JavaScript numbers are modelled as `real`; the code only compares them.
 */
module ApartmentsFilter {
  import opened JsString

  /** `number | null` */
  datatype Option<T> = None | Some(value: T)

  /** The fields of an apartment listing the filter reads. */
  datatype Apartment = Apartment(area: real, rooms: real, address: string)

  /** `FilterState`: two optional ranges and the address text as typed. */
  datatype FilterState = FilterState(
    areaFrom: Option<real>,
    areaTo: Option<real>,
    roomsFrom: Option<real>,
    roomsTo: Option<real>,
    address: string)

  /** `FILTERS`: the initial and reset value, every bound absent and no address. */
  const EmptyFilters: FilterState := FilterState(None, None, None, None, "")

  /** `FILTERS` constrains nothing: both windows are open on both sides
      and neither range is flagged. */
  lemma EmptyFiltersUnconstrained()
    ensures NormalizedWindow(EmptyFilters.areaFrom, EmptyFilters.areaTo) == Window(None, None)
    ensures NormalizedWindow(EmptyFilters.roomsFrom, EmptyFilters.roomsTo) == Window(None, None)
    ensures !Reversed(EmptyFilters.areaFrom, EmptyFilters.areaTo)
    ensures !Reversed(EmptyFilters.roomsFrom, EmptyFilters.roomsTo)
    ensures EmptyFilters.address == []
  {
  }

  // ---------------------------------------------------------------------
  // errors
  // ---------------------------------------------------------------------

  /** The two keys `FilterErrors` may carry. */
  datatype ErrorKey = AreaRange | RoomsRange

  /** `FilterErrors`: a key is present exactly when that range is flagged. */
  type FilterErrors = map<ErrorKey, string>

  /** The fixed text stored under a flagged key ("wrong"). */
  const RangeMessage: string := "неправильно"

  /** A range is reversed when both bounds are present and `from > to`. */
  predicate Reversed(from: Option<real>, to: Option<real>)
    ensures Reversed(from, to) ==> NormalizedWindow(from, to) == Window(to, from)
    ensures !Reversed(from, to) && from.Some? && to.Some? ==> NormalizedWindow(from, to) == Window(from, to)
  {
    from.Some? && to.Some? && from.value > to.value
  }

  /** The `errors` computation: starts from an empty record and sets each
      key when its range check fails; the two checks are independent. */
  method ComputeErrors(f: FilterState) returns (errors: FilterErrors)
    ensures AreaRange in errors <==> Reversed(f.areaFrom, f.areaTo)
    ensures RoomsRange in errors <==> Reversed(f.roomsFrom, f.roomsTo)
    ensures forall k :: k in errors ==> errors[k] == RangeMessage
  {
    errors := map[];
    var hasAreaFrom := f.areaFrom.Some?;
    var hasAreaTo := f.areaTo.Some?;
    var hasRoomsFrom := f.roomsFrom.Some?;
    var hasRoomsTo := f.roomsTo.Some?;
    var areaChecking := hasAreaFrom && hasAreaTo && f.areaFrom.value > f.areaTo.value;
    if areaChecking {
      errors := errors[AreaRange := RangeMessage];
    }
    var roomsChecking := hasRoomsFrom && hasRoomsTo && f.roomsFrom.value > f.roomsTo.value;
    if roomsChecking {
      errors := errors[RoomsRange := RangeMessage];
    }
  }

  // ---------------------------------------------------------------------
  // range normalisation
  // ---------------------------------------------------------------------

  /** An inclusive interval; an absent end is open. */
  datatype Window = Window(lo: Option<real>, hi: Option<real>)

  predicate InWindow(w: Window, x: real)
    ensures w.lo.None? && w.hi.None? ==> InWindow(w, x)
    ensures InWindow(w, x) && w.lo.Some? && w.hi.Some? ==> w.lo.value <= w.hi.value
  {
    (w.lo.None? || x >= w.lo.value) && (w.hi.None? || x <= w.hi.value)
  }

  function Min(x: real, y: real): real { if x <= y then x else y }
  function Max(x: real, y: real): real { if x >= y then x else y }

  /** The window a range filters by: with both bounds present it runs from the
      smaller to the larger (a reversed range is swapped, not emptied);
      otherwise each absent bound leaves its side open. */
  function NormalizedWindow(from: Option<real>, to: Option<real>): (w: Window)
    ensures from.Some? && to.Some? ==>
      && w.lo.Some? && w.hi.Some? && w.lo.value <= w.hi.value
      && {w.lo.value, w.hi.value} == {from.value, to.value}
    ensures !(from.Some? && to.Some?) ==> w == Window(from, to)
  {
    if from.Some? && to.Some? then Window(Some(Min(from.value, to.value)), Some(Max(from.value, to.value)))
    else Window(from, to)
  }

  /** A reference reading of a range: with both bounds, `x` lies between
      them in either order; otherwise `x` satisfies each bound present. */
  ghost predicate InRange(from: Option<real>, to: Option<real>, x: real) {
    if from.Some? && to.Some? then
      (from.value <= x <= to.value) || (to.value <= x <= from.value)
    else
      (from.None? || from.value <= x) && (to.None? || x <= to.value)
  }

  /** Membership of the normalised window agrees with the reference reading. */
  lemma NormalizedWindowMeaning(from: Option<real>, to: Option<real>, x: real)
    ensures InWindow(NormalizedWindow(from, to), x) <==> InRange(from, to, x)
  {
  }

  /** Swapping the two bounds of a range does not change its window. */
  lemma NormalizedWindowSymmetric(from: real, to: real)
    ensures NormalizedWindow(Some(from), Some(to)) == NormalizedWindow(Some(to), Some(from))
  {
  }

  function AreaWindow(f: FilterState): Window { NormalizedWindow(f.areaFrom, f.areaTo) }
  function RoomsWindow(f: FilterState): Window { NormalizedWindow(f.roomsFrom, f.roomsTo) }

  // ---------------------------------------------------------------------
  // the filter predicate and filteredApartments
  // ---------------------------------------------------------------------

  /** The debounce's normalisation of the typed address: trim, then lower-case. */
  function NormalizeQuery(s: string): (q: string)
    ensures forall i :: 0 <= i < |q| ==> !IsUpper(q[i])
    ensures q == [] || (!IsWhiteSpace(q[0]) && !IsWhiteSpace(q[|q| - 1]))
  {
    TrimToLower(s);
    ToLower(Trim(s))
  }

  /** The address test: an empty query passes everything; otherwise the
      lower-cased address must contain the query. */
  predicate AddressMatches(address: string, query: string)
    ensures query == [] ==> AddressMatches(address, query)
    ensures AddressMatches(address, query) ==> |query| <= |address|
  {
    query == [] || Includes(ToLower(address), query)
  }

  /** The predicate given to `apartments.filter`. */
  predicate Passes(a: Apartment, f: FilterState, query: string)
    ensures Passes(a, f, query) <==>
      && InRange(f.areaFrom, f.areaTo, a.area)
      && InRange(f.roomsFrom, f.roomsTo, a.rooms)
      && AddressMatches(a.address, query)
  {
    NormalizedWindowMeaning(f.areaFrom, f.areaTo, a.area);
    NormalizedWindowMeaning(f.roomsFrom, f.roomsTo, a.rooms);
    && InWindow(AreaWindow(f), a.area)
    && InWindow(RoomsWindow(f), a.rooms)
    && AddressMatches(a.address, query)
  }

  /** `filteredApartments`: the apartments that pass, in their original order. */
  function Filter(apartments: seq<Apartment>, f: FilterState, query: string): (r: seq<Apartment>)
    ensures |r| <= |apartments|
    ensures forall a :: a in r ==> a in apartments && Passes(a, f, query)
  {
    if apartments == [] then []
    else
      (if Passes(apartments[0], f, query) then [apartments[0]] else [])
      + Filter(apartments[1..], f, query)
  }

  /** `s` is obtained from `t` by deleting elements, keeping the order.
      Checked greedily: matching the head of `s` with the first equal element
      of `t` never loses a way of embedding `s`. */
  ghost predicate IsSubsequence<T>(s: seq<T>, t: seq<T>)
    decreases |t|
  {
    if s == [] then true
    else if t == [] then false
    else IsSubsequence(if s[0] == t[0] then s[1..] else s, t[1..])
  }

  lemma {:induction false} SubsequenceLength<T>(s: seq<T>, t: seq<T>)
    requires IsSubsequence(s, t)
    ensures |s| <= |t|
    decreases |t|
  {
    if s != [] {
      SubsequenceLength(if s[0] == t[0] then s[1..] else s, t[1..]);
    }
  }

  /** Dropping the first element of a subsequence leaves a subsequence. */
  lemma {:induction false} SubsequenceDropHead<T>(s: seq<T>, t: seq<T>)
    requires s != [] && IsSubsequence(s, t)
    ensures IsSubsequence(s[1..], t)
    decreases |t|
  {
    if s[0] == t[0] {
      if s[1..] != [] {
        SubsequenceDropHead(s[1..], t[1..]);
      }
    } else {
      SubsequenceDropHead(s, t[1..]);
      if s[1..] != [] && s[1] == t[0] {
        SubsequenceDropHead(s[1..], t[1..]);
      }
    }
  }

  /** The result is an order-preserving subsequence of the input. */
  lemma {:induction false} FilterIsSubsequence(apartments: seq<Apartment>, f: FilterState, query: string)
    ensures IsSubsequence(Filter(apartments, f, query), apartments)
  {
    if apartments != [] {
      var rest := Filter(apartments[1..], f, query);
      FilterIsSubsequence(apartments[1..], f, query);
      if Passes(apartments[0], f, query) {
        assert Filter(apartments, f, query) == [apartments[0]] + rest;
        assert ([apartments[0]] + rest)[1..] == rest;
      } else {
        assert Filter(apartments, f, query) == rest;
        SubsequenceAfterPrefix(rest, apartments[1..], apartments[0]);
        assert [apartments[0]] + apartments[1..] == apartments;
      }
    }
  }

  /** Sound and complete: an apartment is in the result iff it is in the
      input and passes the predicate. */
  lemma {:induction false} FilterMembership(apartments: seq<Apartment>, f: FilterState, query: string, a: Apartment)
    ensures a in Filter(apartments, f, query) <==> a in apartments && Passes(a, f, query)
  {
    if apartments != [] {
      FilterMembership(apartments[1..], f, query, a);
      assert apartments == [apartments[0]] + apartments[1..];
    }
  }

  /** With multiplicities: a passing apartment keeps all its copies, a
      failing one loses all of them. */
  lemma {:induction false} FilterMultiplicity(apartments: seq<Apartment>, f: FilterState, query: string, a: Apartment)
    ensures multiset(Filter(apartments, f, query))[a] ==
      if Passes(a, f, query) then multiset(apartments)[a] else 0
  {
    if apartments != [] {
      FilterMultiplicity(apartments[1..], f, query, a);
      assert apartments == [apartments[0]] + apartments[1..];
    }
  }

  /** Two filter records that accept the same apartments give the same result. */
  lemma {:induction false} FilterCongruent(apartments: seq<Apartment>, f: FilterState, g: FilterState, query: string)
    requires forall a :: Passes(a, f, query) <==> Passes(a, g, query)
    ensures Filter(apartments, f, query) == Filter(apartments, g, query)
  {
    if apartments != [] {
      FilterCongruent(apartments[1..], f, g, query);
    }
  }

  /** An empty query excludes nothing on the address dimension. */
  lemma EmptyQueryIgnoresAddress(a: Apartment, f: FilterState)
    ensures Passes(a, f, "") <==> InWindow(AreaWindow(f), a.area) && InWindow(RoomsWindow(f), a.rooms)
  {
  }

  /** A query of white space only normalises to the empty query. */
  lemma BlankQueryIsEmpty(s: string)
    requires forall i :: 0 <= i < |s| ==> IsWhiteSpace(s[i])
    ensures NormalizeQuery(s) == []
  {
    AllWhiteSpaceTrimsToEmpty(s);
  }

  /** The test is case-insensitive: the case of the address and of the typed
      query do not matter. */
  lemma AddressMatchIgnoresCase(address: string, typed: string)
    ensures AddressMatches(address, NormalizeQuery(typed)) <==> AddressMatches(ToLower(address), NormalizeQuery(typed))
    ensures NormalizeQuery(ToLower(typed)) == NormalizeQuery(typed)
  {
    ToLowerIdempotent(address);
    TrimToLower(typed);
    ToLowerIdempotent(Trim(typed));
  }

  /** A query that is already trimmed and lower-case is left unchanged;
      with the ensures of `NormalizeQuery`, the normalised queries are
      exactly the trimmed, lower-case strings. */
  lemma NormalizeQueryFixed(s: string)
    requires forall i :: 0 <= i < |s| ==> !IsUpper(s[i])
    requires s == [] || (!IsWhiteSpace(s[0]) && !IsWhiteSpace(s[|s| - 1]))
    ensures NormalizeQuery(s) == s
  {
    if s != [] {
      TrimNoWhiteSpaceEnds(s);
    }
  }

  /** Normalising twice is normalising once. */
  lemma NormalizeQueryIdempotent(s: string)
    ensures NormalizeQuery(NormalizeQuery(s)) == NormalizeQuery(s)
  {
    TrimToLower(Trim(s));
    TrimIdempotent(s);
    ToLowerIdempotent(Trim(s));
  }

  /** With the initial or reset filters and the empty query, every apartment passes. */
  lemma EmptyFiltersPassAll()
    ensures forall a :: Passes(a, EmptyFilters, "")
  {
  }

  /** With the initial or reset filters and the empty debounced query,
      every apartment is shown, in the original order. */
  lemma {:induction false} EmptyFiltersKeepAll(apartments: seq<Apartment>)
    ensures Filter(apartments, EmptyFilters, "") == apartments
  {
    if apartments != [] {
      EmptyFiltersKeepAll(apartments[1..]);
      assert apartments == [apartments[0]] + apartments[1..];
    }
  }

  /** A reversed area range filters exactly like the swapped one. */
  lemma ReversedAreaRangeSameResult(apartments: seq<Apartment>, f: FilterState, query: string)
    requires f.areaFrom.Some? && f.areaTo.Some?
    ensures Filter(apartments, f, query) == Filter(apartments, f.(areaFrom := f.areaTo, areaTo := f.areaFrom), query)
  {
    NormalizedWindowSymmetric(f.areaFrom.value, f.areaTo.value);
    FilterCongruent(apartments, f, f.(areaFrom := f.areaTo, areaTo := f.areaFrom), query);
  }

  /** A reversed rooms range filters exactly like the swapped one. */
  lemma ReversedRoomsRangeSameResult(apartments: seq<Apartment>, f: FilterState, query: string)
    requires f.roomsFrom.Some? && f.roomsTo.Some?
    ensures Filter(apartments, f, query) == Filter(apartments, f.(roomsFrom := f.roomsTo, roomsTo := f.roomsFrom), query)
  {
    NormalizedWindowSymmetric(f.roomsFrom.value, f.roomsTo.value);
    FilterCongruent(apartments, f, f.(roomsFrom := f.roomsTo, roomsTo := f.roomsFrom), query);
  }

  // ---------------------------------------------------------------------
  // monotonicity
  // ---------------------------------------------------------------------

  /** `outer` contains `inner`, bound by bound. */
  predicate Covers(outer: Window, inner: Window) {
    && (outer.lo.None? || (inner.lo.Some? && outer.lo.value <= inner.lo.value))
    && (outer.hi.None? || (inner.hi.Some? && inner.hi.value <= outer.hi.value))
  }

  /** Everything accepted with `f` is accepted with `g` when `g`'s windows
      cover `f`'s: the result with `f` is a subsequence of the result with
      `g`, so it is no longer. */
  lemma {:induction false} FilterMonotone(apartments: seq<Apartment>, f: FilterState, g: FilterState, query: string)
    requires Covers(AreaWindow(g), AreaWindow(f)) && Covers(RoomsWindow(g), RoomsWindow(f))
    ensures IsSubsequence(Filter(apartments, f, query), Filter(apartments, g, query))
    ensures |Filter(apartments, f, query)| <= |Filter(apartments, g, query)|
  {
    if apartments != [] {
      FilterMonotone(apartments[1..], f, g, query);
      var a := apartments[0];
      var rf := Filter(apartments[1..], f, query);
      var rg := Filter(apartments[1..], g, query);
      if Passes(a, f, query) {
        assert Passes(a, g, query);
        assert Filter(apartments, f, query) == [a] + rf;
        assert Filter(apartments, g, query) == [a] + rg;
        assert ([a] + rf)[1..] == rf;
        assert ([a] + rg)[1..] == rg;
      } else if Passes(a, g, query) {
        assert Filter(apartments, f, query) == rf;
        assert Filter(apartments, g, query) == [a] + rg;
        assert ([a] + rg)[1..] == rg;
        SubsequenceAfterPrefix(rf, rg, a);
      } else {
        assert Filter(apartments, f, query) == rf;
        assert Filter(apartments, g, query) == rg;
      }
    }
    SubsequenceLength(Filter(apartments, f, query), Filter(apartments, g, query));
  }

  lemma {:induction false} SubsequenceAfterPrefix<T>(s: seq<T>, t: seq<T>, x: T)
    requires IsSubsequence(s, t)
    ensures IsSubsequence(s, [x] + t)
  {
    assert ([x] + t)[1..] == t;
    if s != [] && s[0] == x {
      SubsequenceDropHead(s, t);
    }
  }

  /** A lower bound is relaxed when it is lowered or cleared. */
  predicate LowerRelaxed(before: Option<real>, after: Option<real>) {
    after.None? || (before.Some? && after.value <= before.value)
  }

  /** An upper bound is relaxed when it is raised or cleared. */
  predicate UpperRelaxed(before: Option<real>, after: Option<real>) {
    after.None? || (before.Some? && after.value >= before.value)
  }

  /** The range `(from', to')` widens `(from, to)`: it is unchanged, or the
      old range was consistent and each bound was relaxed. */
  predicate Widens(from: Option<real>, to: Option<real>, from': Option<real>, to': Option<real>) {
    || (from' == from && to' == to)
    || (!Reversed(from, to) && LowerRelaxed(from, from') && UpperRelaxed(to, to'))
  }

  lemma WidensCovers(from: Option<real>, to: Option<real>, from': Option<real>, to': Option<real>)
    requires Widens(from, to, from', to')
    ensures Covers(NormalizedWindow(from', to'), NormalizedWindow(from, to))
  {
  }

  /** Widening either range (lowering `from`, raising `to` or clearing a bound
      of a consistent range) never decreases `foundCount`; read the other way
      round, narrowing to a consistent range never increases it. */
  lemma WideningNeverShrinks(apartments: seq<Apartment>, f: FilterState, g: FilterState, query: string)
    requires Widens(f.areaFrom, f.areaTo, g.areaFrom, g.areaTo)
    requires Widens(f.roomsFrom, f.roomsTo, g.roomsFrom, g.roomsTo)
    ensures IsSubsequence(Filter(apartments, f, query), Filter(apartments, g, query))
    ensures |Filter(apartments, f, query)| <= |Filter(apartments, g, query)|
  {
    WidensCovers(f.areaFrom, f.areaTo, g.areaFrom, g.areaTo);
    WidensCovers(f.roomsFrom, f.roomsTo, g.roomsFrom, g.roomsTo);
    FilterMonotone(apartments, f, g, query);
  }

  /** Why `Widens` asks for a consistent range: clearing one bound of a
      reversed range replaces the swapped window by a one-sided one, which can
      drop apartments. */
  lemma ClearingReversedBoundMayNarrow()
    ensures
      var apartments := [Apartment(60.0, 2.0, "")];
      var reversed := FilterState(Some(80.0), Some(40.0), None, None, "");
      && Reversed(reversed.areaFrom, reversed.areaTo)
      && |Filter(apartments, reversed, "")| == 1
      && |Filter(apartments, reversed.(areaFrom := None), "")| == 0
  {
  }

  /** Narrowing into a reversed range can widen the result: raising `from`
      past `to` turns the window (5, 10) into the swapped (10, 12). */
  lemma RaisingFromPastToMayWiden()
    ensures
      var apartments := [Apartment(11.0, 2.0, "")];
      var consistent := FilterState(Some(5.0), Some(10.0), None, None, "");
      var raised := consistent.(areaFrom := Some(12.0));
      && !Reversed(consistent.areaFrom, consistent.areaTo)
      && Reversed(raised.areaFrom, raised.areaTo)
      && |Filter(apartments, consistent, "")| == 0
      && |Filter(apartments, raised, "")| == 1
  {
  }

  // ---------------------------------------------------------------------
  // areaBounds and roomsBounds
  // ---------------------------------------------------------------------

  /** A JavaScript number as `Math.min` and `Math.max` can return it. */
  datatype Extended = NegInfinity | Finite(value: real) | PosInfinity

  /** `Math.min(...xs)`: `Infinity` for no arguments, else the least value. */
  function SpreadMin(xs: seq<real>): (r: Extended)
    ensures xs == [] <==> r == PosInfinity
    ensures r.Finite? ==> (forall i :: 0 <= i < |xs| ==> r.value <= xs[i]) && r.value in xs
    ensures !r.NegInfinity?
  {
    if xs == [] then PosInfinity
    else
      var rest := SpreadMin(xs[1..]);
      if rest.Finite? && rest.value < xs[0] then rest else Finite(xs[0])
  }

  /** `Math.max(...xs)`: `-Infinity` for no arguments, else the greatest value. */
  function SpreadMax(xs: seq<real>): (r: Extended)
    ensures xs == [] <==> r == NegInfinity
    ensures r.Finite? ==> (forall i :: 0 <= i < |xs| ==> xs[i] <= r.value) && r.value in xs
    ensures !r.PosInfinity?
  {
    if xs == [] then NegInfinity
    else
      var rest := SpreadMax(xs[1..]);
      if rest.Finite? && rest.value > xs[0] then rest else Finite(xs[0])
  }

  datatype Bounds = Bounds(min: Extended, max: Extended)

  function Areas(apartments: seq<Apartment>): (xs: seq<real>)
    ensures |xs| == |apartments| && forall i :: 0 <= i < |xs| ==> xs[i] == apartments[i].area
  {
    seq(|apartments|, i requires 0 <= i < |apartments| => apartments[i].area)
  }

  function RoomCounts(apartments: seq<Apartment>): (xs: seq<real>)
    ensures |xs| == |apartments| && forall i :: 0 <= i < |xs| ==> xs[i] == apartments[i].rooms
  {
    seq(|apartments|, i requires 0 <= i < |apartments| => apartments[i].rooms)
  }

  /** `areaBounds`: for the empty list the two infinities; otherwise finite
      bounds that enclose every area and are both attained. */
  function AreaBounds(apartments: seq<Apartment>): (b: Bounds)
    ensures apartments == [] <==> b == Bounds(PosInfinity, NegInfinity)
    ensures apartments != [] ==>
      && b.min.Finite? && b.max.Finite? && b.min.value <= b.max.value
      && (forall a :: a in apartments ==> b.min.value <= a.area <= b.max.value)
      && (exists a :: a in apartments && a.area == b.min.value)
      && (exists a :: a in apartments && a.area == b.max.value)
  {
    var xs := Areas(apartments);
    var b := Bounds(SpreadMin(xs), SpreadMax(xs));
    assert apartments != [] ==>
      && (forall a :: a in apartments ==> b.min.value <= a.area <= b.max.value)
      && (exists a :: a in apartments && a.area == b.min.value)
      && (exists a :: a in apartments && a.area == b.max.value)
    by {
      if apartments != [] {
        forall a | a in apartments ensures b.min.value <= a.area <= b.max.value {
          var i :| 0 <= i < |apartments| && apartments[i] == a;
          assert xs[i] == a.area;
        }
        var i :| 0 <= i < |xs| && xs[i] == b.min.value;
        assert apartments[i] in apartments;
        var j :| 0 <= j < |xs| && xs[j] == b.max.value;
        assert apartments[j] in apartments;
      }
    }
    b
  }

  /** `roomsBounds`: for the empty list the two infinities; otherwise finite
      bounds that enclose every room count and are both attained. */
  function RoomsBounds(apartments: seq<Apartment>): (b: Bounds)
    ensures apartments == [] <==> b == Bounds(PosInfinity, NegInfinity)
    ensures apartments != [] ==>
      && b.min.Finite? && b.max.Finite? && b.min.value <= b.max.value
      && (forall a :: a in apartments ==> b.min.value <= a.rooms <= b.max.value)
      && (exists a :: a in apartments && a.rooms == b.min.value)
      && (exists a :: a in apartments && a.rooms == b.max.value)
  {
    var xs := RoomCounts(apartments);
    var b := Bounds(SpreadMin(xs), SpreadMax(xs));
    assert apartments != [] ==>
      && (forall a :: a in apartments ==> b.min.value <= a.rooms <= b.max.value)
      && (exists a :: a in apartments && a.rooms == b.min.value)
      && (exists a :: a in apartments && a.rooms == b.max.value)
    by {
      if apartments != [] {
        forall a | a in apartments ensures b.min.value <= a.rooms <= b.max.value {
          var i :| 0 <= i < |apartments| && apartments[i] == a;
          assert xs[i] == a.rooms;
        }
        var i :| 0 <= i < |xs| && xs[i] == b.min.value;
        assert apartments[i] in apartments;
        var j :| 0 <= j < |xs| && xs[j] == b.max.value;
        assert apartments[j] in apartments;
      }
    }
    b
  }
}
