/**
 * The state the composable keeps between calls: the `filters` ref, the
 * `debouncedAddress` ref and the debounce timer. A scheduled timer is
 * modelled by the address value its callback captured; firing it is an
 * explicit step, since there is no clock in the model.
 */
module FilterManager {
  import opened ApartmentsFilter

  class Manager {
    /** The list the composable was given; it is never changed. */
    const apartments: seq<Apartment>
    /** The `filters` ref. */
    var filters: FilterState
    /** The `debouncedAddress` ref: the query the filter actually uses. */
    var debouncedAddress: string
    /** The pending debounce timer, holding the address its callback will
        apply; `None` when no timer is scheduled. */
    var pending: Option<string>

    /** A scheduled timer always carries the current address: the address
        watcher reschedules on every change of it. */
    ghost predicate Valid()
      reads this
    {
      pending.Some? ==> pending.value == filters.address
    }

    /** `useApartmentsFilter(apartments)`: the filters start as `FILTERS`, the
        debounced query as "", and the immediate run of the address watcher
        schedules a timer for the empty address. */
    constructor (apartments: seq<Apartment>)
      ensures Valid()
      ensures this.apartments == apartments
      ensures filters == EmptyFilters && debouncedAddress == "" && pending == Some("")
    {
      this.apartments := apartments;
      filters := EmptyFilters;
      debouncedAddress := "";
      pending := Some(EmptyFilters.address);
    }

    /** The address watcher: cancel the pending timer, if any, and schedule a
        new one for `value`. Only the latest value is kept. */
    method AddressChanged(value: string)
      requires value == filters.address
      modifies this
      ensures Valid()
      ensures pending == Some(value)
      ensures filters == old(filters) && debouncedAddress == old(debouncedAddress)
    {
      pending := Some(value);
    }

    /** `updateFilters(nextFilters)`: the filter record becomes exactly
        `nextFilters`; the debounced query is untouched and a timer is
        (re)scheduled only if the address changed. */
    method UpdateFilters(nextFilters: FilterState)
      requires Valid()
      modifies this
      ensures Valid()
      ensures filters == nextFilters && debouncedAddress == old(debouncedAddress)
      ensures pending == if nextFilters.address != old(filters.address) then Some(nextFilters.address) else old(pending)
    {
      var previous := filters.address;
      filters := nextFilters;
      if nextFilters.address != previous {
        AddressChanged(nextFilters.address);
      }
    }

    /** `resetFilters()`: the filter record becomes `FILTERS`. When it already
        is, nothing changes, so resetting twice is resetting once. */
    method ResetFilters()
      requires Valid()
      modifies this
      ensures Valid()
      ensures filters == EmptyFilters && debouncedAddress == old(debouncedAddress)
      ensures pending == if old(filters.address) != "" then Some("") else old(pending)
      ensures old(filters) == EmptyFilters ==> filters == old(filters) && pending == old(pending)
    {
      var previous := filters.address;
      filters := EmptyFilters;
      if EmptyFilters.address != previous {
        AddressChanged(EmptyFilters.address);
      }
    }

    /** The timer callback: the debounced query becomes the trimmed,
        lower-cased address of the last edit; with no timer scheduled
        nothing happens. */
    method Fire()
      requires Valid()
      modifies this
      ensures Valid()
      ensures pending == None && filters == old(filters)
      ensures debouncedAddress == if old(pending).Some? then NormalizeQuery(filters.address) else old(debouncedAddress)
    {
      if pending.Some? {
        debouncedAddress := NormalizeQuery(pending.value);
        pending := None;
      }
    }

    /** `filteredApartments`: an order-preserving subsequence of the list,
        holding exactly the apartments that pass under the current filters
        and the debounced (not the typed) query. */
    function FilteredApartments(): (r: seq<Apartment>)
      reads this
      ensures IsSubsequence(r, apartments)
      ensures forall a :: a in r <==> a in apartments && Passes(a, filters, debouncedAddress)
      ensures forall a :: multiset(r)[a] == if Passes(a, filters, debouncedAddress) then multiset(apartments)[a] else 0
    {
      FilterIsSubsequence(apartments, filters, debouncedAddress);
      forall a ensures a in Filter(apartments, filters, debouncedAddress) <==> a in apartments && Passes(a, filters, debouncedAddress) {
        FilterMembership(apartments, filters, debouncedAddress, a);
      }
      forall a ensures multiset(Filter(apartments, filters, debouncedAddress))[a] ==
        if Passes(a, filters, debouncedAddress) then multiset(apartments)[a] else 0 {
        FilterMultiplicity(apartments, filters, debouncedAddress, a);
      }
      Filter(apartments, filters, debouncedAddress)
    }

    /** `foundCount`: the length of `filteredApartments`, at most the list's. */
    function FoundCount(): (n: nat)
      reads this
      ensures n == |FilteredApartments()| && n <= |apartments|
    {
      |FilteredApartments()|
    }

    /** `errors` under the current filters. */
    method Errors() returns (errors: FilterErrors)
      ensures AreaRange in errors <==> Reversed(filters.areaFrom, filters.areaTo)
      ensures RoomsRange in errors <==> Reversed(filters.roomsFrom, filters.roomsTo)
      ensures forall k :: k in errors ==> errors[k] == RangeMessage
    {
      errors := ComputeErrors(filters);
    }

    /** `areaBounds` */
    function AreaBoundsOfList(): (b: Bounds)
      ensures apartments == [] ==> b == Bounds(PosInfinity, NegInfinity)
      ensures apartments != [] ==>
        && b.min.Finite? && b.max.Finite?
        && (forall a :: a in apartments ==> b.min.value <= a.area <= b.max.value)
        && (exists a :: a in apartments && a.area == b.min.value)
        && (exists a :: a in apartments && a.area == b.max.value)
    {
      AreaBounds(apartments)
    }

    /** `roomsBounds` */
    function RoomsBoundsOfList(): (b: Bounds)
      ensures apartments == [] ==> b == Bounds(PosInfinity, NegInfinity)
      ensures apartments != [] ==>
        && b.min.Finite? && b.max.Finite?
        && (forall a :: a in apartments ==> b.min.value <= a.rooms <= b.max.value)
        && (exists a :: a in apartments && a.rooms == b.min.value)
        && (exists a :: a in apartments && a.rooms == b.max.value)
    {
      RoomsBounds(apartments)
    }
  }
}
