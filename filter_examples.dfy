/**
 * Worked examples of the filter on small concrete inputs.
 */
module FilterExamples {
  import opened JsString
  import opened ApartmentsFilter
  import opened FilterManager

  /** Two listings, an open-ended area range from 60 and no query: only the
      larger flat is shown, nothing is flagged, and the bounds are 50..90
      and 2..4. */
  lemma ElmAndOakScenario()
    ensures
      var elm := Apartment(50.0, 2.0, "Elm St");
      var oak := Apartment(90.0, 4.0, "Oak Ave");
      var f := EmptyFilters.(areaFrom := Some(60.0));
      && Filter([elm, oak], f, "") == [oak]
      && !Reversed(f.areaFrom, f.areaTo) && !Reversed(f.roomsFrom, f.roomsTo)
      && AreaBounds([elm, oak]) == Bounds(Finite(50.0), Finite(90.0))
      && RoomsBounds([elm, oak]) == Bounds(Finite(2.0), Finite(4.0))
  {
  }

  /** Lower-casing the ASCII capitals B, A, K, E and R. */
  lemma LowerBaker()
    ensures ToLower("BAKER") == "baker"
  {
    var r := ToLower("BAKER");
    assert r[0] == LowerChar('B') == 'b';
    assert r[1] == LowerChar('A') == 'a';
    assert r[2] == LowerChar('K') == 'k';
    assert r[3] == LowerChar('E') == 'e';
    assert r[4] == LowerChar('R') == 'r';
  }

  lemma LowerBakerStreet()
    ensures ToLower("Baker Street")[..5] == "baker"
  {
    var r := ToLower("Baker Street");
    assert r[0] == LowerChar('B') == 'b';
    assert r[1] == LowerChar('a') == 'a';
    assert r[2] == LowerChar('k') == 'k';
    assert r[3] == LowerChar('e') == 'e';
    assert r[4] == LowerChar('r') == 'r';
  }

  lemma NormalizeBaker()
    ensures NormalizeQuery("BAKER") == "baker"
  {
    TrimNoWhiteSpaceEnds("BAKER");
    LowerBaker();
  }

  lemma BakerStreetIncludesBaker()
    ensures AddressMatches("Baker Street", "baker")
  {
    LowerBakerStreet();
    assert StartsWith(ToLower("Baker Street"), "baker");
  }

  /** The typed query "BAKER" matches the address "Baker Street". */
  lemma BakerStreetScenario()
    ensures AddressMatches("Baker Street", NormalizeQuery("BAKER"))
  {
    NormalizeBaker();
    BakerStreetIncludesBaker();
  }

  lemma NormalizeAbc()
    ensures NormalizeQuery("abc") == "abc"
  {
    var s := "abc";
    assert s[0] == 'a' && s[1] == 'b' && s[2] == 'c';
    NormalizeQueryFixed(s);
  }

  /** Under the reset filters and the empty debounced query the manager
      shows its whole list. */
  lemma ResetStateShowsAll(m: Manager)
    requires m.filters == EmptyFilters && m.debouncedAddress == ""
    ensures m.FilteredApartments() == m.apartments && m.FoundCount() == |m.apartments|
  {
    EmptyFiltersKeepAll(m.apartments);
  }

  /** A fresh manager, once the initial timer has fired, shows the whole list. */
  method InitialStateShowsAll(apartments: seq<Apartment>) returns (m: Manager)
    ensures fresh(m) && m.Valid()
    ensures m.FilteredApartments() == apartments && m.FoundCount() == |apartments|
  {
    m := new Manager(apartments);
    m.Fire();
    BlankQueryIsEmpty(EmptyFilters.address);
    ResetStateShowsAll(m);
  }

  /** Three address edits in a burst, "a", "ab", "abc", then one timer firing:
      the debounced query takes only the last value. */
  method DebounceCoalescing(m: Manager)
    requires m.Valid()
    modifies m
    ensures m.Valid()
    ensures m.debouncedAddress == "abc" && m.pending == None
    ensures m.filters == old(m.filters).(address := "abc")
  {
    var f := m.filters;
    m.UpdateFilters(f.(address := "a"));
    m.UpdateFilters(f.(address := "ab"));
    m.UpdateFilters(f.(address := "abc"));
    m.Fire();
    NormalizeAbc();
  }

  /** Resetting twice leaves the manager as resetting once does. */
  method ResetTwice(m: Manager)
    requires m.Valid()
    modifies m
    ensures m.Valid() && m.filters == EmptyFilters
    ensures m.debouncedAddress == old(m.debouncedAddress)
    ensures m.pending == if old(m.filters.address) != "" then Some("") else old(m.pending)
  {
    m.ResetFilters();
    var afterOnce, pendingOnce := m.filters, m.pending;
    m.ResetFilters();
    assert m.filters == afterOnce && m.pending == pendingOnce;
  }
}
