/** The country-code lookup behind `setFirstWeekday('US')`: the index of the
    first territory group that lists the upper-cased code, 0 when none does.
    The index is the first column of a calendar week, counted from Monday. */
module FirstWeekday {
  import Text

  /** Weeks start on Monday: the group at index 0 (the default anyway). */
  const MondayGroup: seq<string> :=
    [ "AD", "AI", "AL", "AM", "AN", "AT", "AX", "AZ", "BA", "BE", "BG", "BM" ] +
    [ "BN", "BY", "CH", "CL", "CM", "CR", "CY", "CZ", "DE", "DK", "EC", "EE" ] +
    [ "ES", "FI", "FJ", "FO", "FR", "GB", "GE", "GF", "GP", "GR", "HR", "HU" ] +
    [ "IS", "IT", "KG", "KZ", "LB", "LI", "LK", "LT", "LU", "LV", "MC", "MD" ] +
    [ "ME", "MK", "MN", "MQ", "MY", "NL", "NO", "PL", "PT", "RE", "RO", "RS" ] +
    [ "RU", "SE", "SI", "SK", "SM", "TJ", "TM", "TR", "UA", "UY", "UZ", "VA" ] +
    [ "VN", "XK" ]

  /** Weeks start on Friday: index 4. */
  const FridayGroup: seq<string> := [ "BD", "MV" ]

  /** Weeks start on Saturday: index 5. */
  const SaturdayGroup: seq<string> :=
    [ "AE", "AF", "BH", "DJ", "DZ", "EG", "IQ", "IR", "JO", "KW", "LY", "MA" ] +
    [ "OM", "QA", "SD", "SY" ]

  /** Weeks start on Sunday: index 6. */
  const SundayGroup: seq<string> :=
    [ "AG", "AR", "AS", "AU", "BR", "BS", "BT", "BW", "BZ", "CA", "CN", "CO" ] +
    [ "DM", "DO", "ET", "GT", "GU", "HK", "HN", "ID", "IE", "IL", "IN", "JM" ] +
    [ "JP", "KE", "KH", "KR", "LA", "MH", "MM", "MO", "MT", "MX", "MZ", "NI" ] +
    [ "NP", "NZ", "PA", "PE", "PH", "PK", "PR", "PY", "SA", "SG", "SV", "TH" ] +
    [ "TN", "TT", "TW", "UM", "US", "VE", "VI", "WS", "YE", "ZA", "ZW" ]

  /** The seven groups of the lookup, in order; groups 1 to 3 are empty. */
  const Territories: seq<seq<string>> :=
    [MondayGroup, [], [], [], FridayGroup, SaturdayGroup, SundayGroup]

  /** The first group at or after `i` that lists `code`, or |groups| if none. */
  function FirstGroup(groups: seq<seq<string>>, code: string, i: nat): (r: nat)
    requires i <= |groups|
    ensures i <= r <= |groups|
    ensures r < |groups| ==> code in groups[r]
    ensures forall j :: i <= j < r ==> code !in groups[j]
    decreases |groups| - i
  {
    if i == |groups| then i
    else if code in groups[i] then i
    else FirstGroup(groups, code, i + 1)
  }

  /** `Calendar::firstWeekday(countryCode)`. */
  function Lookup(countryCode: string): (r: int)
    ensures 0 <= r <= 6
    ensures r != 0 ==> Text.Upper(countryCode) in Territories[r]
    ensures r != 0 ==> forall j :: 0 <= j < r ==> Text.Upper(countryCode) !in Territories[j]
    ensures r == 0 ==> Text.Upper(countryCode) in Territories[0]
                       || forall j :: 0 <= j < 7 ==> Text.Upper(countryCode) !in Territories[j]
  {
    var k := FirstGroup(Territories, Text.Upper(countryCode), 0);
    if k < |Territories| then k else 0
  }

  /** The lookup is decided by the group that lists the upper-cased code: `at`
      names that group (7 for none), and the result is its index, 0 for none. */
  lemma Placement(code: string, at: int)
    requires at == 0 || at == 4 || at == 5 || at == 6 || at == 7
    requires (at == 0) == (Text.Upper(code) in MondayGroup)
    requires (at == 4) == (Text.Upper(code) in FridayGroup)
    requires (at == 5) == (Text.Upper(code) in SaturdayGroup)
    requires (at == 6) == (Text.Upper(code) in SundayGroup)
    ensures Lookup(code) == (if at == 7 then 0 else at)
  {
    assert Territories[0] == MondayGroup && Territories[4] == FridayGroup;
    assert Territories[5] == SaturdayGroup && Territories[6] == SundayGroup;
    assert Territories[1] == [] && Territories[2] == [] && Territories[3] == [];
  }

  /** Listing facts for the example codes below, one per lemma: a membership
      test against a whole group costs the solver about half a million steps. */
  lemma UpperUs()
    ensures Text.Upper("us") == "US"
  {
    assert Text.Upper("us")[0] == 'U' && Text.Upper("us")[1] == 'S';
  }

  lemma UsNotMonday()
    ensures "US" !in MondayGroup
  {
  }

  lemma UsNotFridayOrSaturday()
    ensures "US" !in FridayGroup && "US" !in SaturdayGroup
  {
  }

  /** The United States start the week on Sunday (column 6), in either case. */
  lemma LookupUnitedStates()
    ensures Lookup("us") == 6 && Lookup("US") == 6
  {
    UpperUs();
    assert Text.Upper("US") == "US";
    UsNotMonday();
    UsNotFridayOrSaturday();
    assert SundayGroup[52] == "US";
    Placement("us", 6);
    Placement("US", 6);
  }

  lemma BdNotMonday()
    ensures "BD" !in MondayGroup
  {
  }

  lemma BdNotSaturdayOrSunday()
    ensures "BD" !in SaturdayGroup && "BD" !in SundayGroup
  {
  }

  /** Bangladesh and the Maldives start the week on Friday (column 4). */
  lemma LookupBangladesh()
    ensures Lookup("BD") == 4
  {
    assert Text.Upper("BD") == "BD";
    BdNotMonday();
    BdNotSaturdayOrSunday();
    Placement("BD", 4);
  }

  lemma EgNotMonday()
    ensures "EG" !in MondayGroup
  {
  }

  lemma EgNotSunday()
    ensures "EG" !in SundayGroup
  {
  }

  /** Egypt, in the Saturday group, starts the week on Saturday (column 5). */
  lemma LookupEgypt()
    ensures Lookup("EG") == 5
  {
    assert Text.Upper("EG") == "EG";
    EgNotMonday();
    EgNotSunday();
    assert SaturdayGroup[5] == "EG";
    Placement("EG", 5);
  }

  /** Germany, in the first group, keeps Monday (column 0), in either case. */
  lemma LookupGermany()
    ensures Lookup("de") == 0 && Lookup("DE") == 0
  {
    assert Text.Upper("de")[0] == 'D' && Text.Upper("de")[1] == 'E';
    assert Text.Upper("de") == "DE";
    assert Text.Upper("DE") == "DE";
    assert MondayGroup[20] == "DE";
  }

  lemma XxNotMonday()
    ensures "XX" !in MondayGroup
  {
  }

  lemma XxNotFridaySaturdayOrSunday()
    ensures "XX" !in FridayGroup && "XX" !in SaturdayGroup && "XX" !in SundayGroup
  {
  }

  /** Any code that no group lists, in whatever case, gives column 0, Monday. */
  lemma LookupUnlisted(code: string)
    requires forall j :: 0 <= j < 7 ==> Text.Upper(code) !in Territories[j]
    ensures Lookup(code) == 0
  {
  }

  /** The code XX, which no group lists, gives column 0. */
  lemma LookupUnknown()
    ensures Lookup("XX") == 0
  {
    assert Text.Upper("XX") == "XX";
    XxNotMonday();
    XxNotFridaySaturdayOrSunday();
    Placement("XX", 7);
  }
}
