/**
  The `MOCK_PHARMACIES` table of backend/app.py and the region
  availability annotation `get_medicines` attaches to each result.
*/
module Regions {
  import opened Wrappers
  import opened Text

  datatype Pharmacy = Pharmacy(name: string, address: string, availableMedicines: seq<string>)

  /** `MOCK_PHARMACIES`, keyed by region code. */
  const MockPharmacies: map<string, seq<Pharmacy>> := map[
    "NY" := [
      Pharmacy("NY Health Pharmacy", "123 Main St, New York, NY", ["Aspirin", "Ibuprofen"]),
      Pharmacy("Manhattan Meds", "456 Park Ave, New York, NY", ["Paracetamol", "Cetirizine"])
    ],
    "CA" := [
      Pharmacy("CA Wellness", "789 Sunset Blvd, Los Angeles, CA", ["Aspirin", "Cetirizine"]),
      Pharmacy("Bay Area Pharmacy", "101 Market St, San Francisco, CA", ["Ibuprofen", "Paracetamol"])
    ],
    "TX" := [
      Pharmacy("Texas Meds", "202 Lone Star Rd, Houston, TX", ["Aspirin", "Paracetamol"])
    ],
    "FL" := [
      Pharmacy("Florida Health", "303 Ocean Dr, Miami, FL", ["Ibuprofen", "Cetirizine"])
    ],
    "IL" := [
      Pharmacy("Chicago Pharmacy", "404 Lake Shore Dr, Chicago, IL", ["Aspirin", "Ibuprofen"])
    ]
  ]

  /** `MOCK_PHARMACIES.get(region, [])`. */
  function PharmaciesIn(code: string): seq<Pharmacy> {
    if code in MockPharmacies then MockPharmacies[code] else []
  }

  /** `available_in_region` for a drug name that is already cleaned and
      lower-cased: None without a region (Python's `if region:` is false
      for None and for ""), otherwise whether some pharmacy of the region
      lists the capitalized name. */
  function AvailableInRegion(region: Option<string>, drugName: string): (r: Option<bool>)
    ensures r.None? <==> region.None? || region.value == ""
  {
    if region.None? || region.value == "" then None
    else Some(exists p :: p in PharmaciesIn(region.value) && Capitalize(drugName) in p.availableMedicines)
  }

  /** The medicines the table mentions, in the lower case names are compared in. */
  const KnownMedicines: seq<string> := [Lower("Aspirin"), Lower("Ibuprofen"), Lower("Paracetamol"), Lower("Cetirizine")]

  /** Every medicine listed anywhere in the table is one of four. */
  lemma TableListsFourMedicines(code: string, p: Pharmacy, m: string)
    requires p in PharmaciesIn(code) && m in p.availableMedicines
    ensures m in ["Aspirin", "Ibuprofen", "Paracetamol", "Cetirizine"]
  {
    assert code in MockPharmacies;
    if code == "NY" {
    } else if code == "CA" {
    } else if code == "TX" {
    } else if code == "FL" {
    } else {
      assert code == "IL";
    }
  }

  /** Every name in the table is written in capitalized form. */
  lemma TableNamesCapitalized(code: string, p: Pharmacy, m: string)
    requires p in PharmaciesIn(code) && m in p.availableMedicines
    ensures Capitalize(m) == m
    ensures Lower(m) in KnownMedicines
  {
    TableListsFourMedicines(code, p, m);
    CapitalizeFixesCapitalizedWord(m);
  }

  /** Against a list whose names are all capitalized, looking up the
      capitalized name is a case-insensitive lookup. */
  lemma CapitalizedLookupIgnoresCase(ps: seq<Pharmacy>, drugName: string)
    requires forall p, m :: p in ps && m in p.availableMedicines ==> Capitalize(m) == m
    ensures (exists p :: p in ps && Capitalize(drugName) in p.availableMedicines) <==>
            (exists p, m :: p in ps && m in p.availableMedicines && Lower(m) == Lower(drugName))
  {
    if exists p :: p in ps && Capitalize(drugName) in p.availableMedicines {
      var p :| p in ps && Capitalize(drugName) in p.availableMedicines;
      var m := Capitalize(drugName);
      CapitalizeMatchesIgnoringCase(drugName, m);
      assert Lower(m) == Lower(drugName);
    }
    if exists p, m :: p in ps && m in p.availableMedicines && Lower(m) == Lower(drugName) {
      var p, m :| p in ps && m in p.availableMedicines && Lower(m) == Lower(drugName);
      CapitalizeMatchesIgnoringCase(drugName, m);
      assert Capitalize(drugName) in p.availableMedicines;
    }
  }

  /** The capitalize-then-compare of the source is a case-insensitive
      match of the drug name against the region's listed medicines. */
  lemma AvailabilityIgnoresCase(code: string, drugName: string)
    requires code != ""
    ensures AvailableInRegion(Some(code), drugName) ==
      Some(exists p, m :: p in PharmaciesIn(code) && m in p.availableMedicines && Lower(m) == Lower(drugName))
  {
    var ps := PharmaciesIn(code);
    forall p, m | p in ps && m in p.availableMedicines ensures Capitalize(m) == m {
      TableNamesCapitalized(code, p, m);
    }
    CapitalizedLookupIgnoresCase(ps, drugName);
  }

  /** An unknown region code gives "not available", never None. */
  lemma UnknownRegionUnavailable(code: string, drugName: string)
    requires code != "" && code !in MockPharmacies
    ensures AvailableInRegion(Some(code), drugName) == Some(false)
  {
  }

  /** Only the four medicines of the table are ever reported available. */
  lemma AvailableOnlyForListedMedicines(region: Option<string>, drugName: string)
    requires AvailableInRegion(region, drugName) == Some(true)
    ensures Lower(drugName) in KnownMedicines
  {
    AvailabilityIgnoresCase(region.value, drugName);
    var p, m :| p in PharmaciesIn(region.value) && m in p.availableMedicines && Lower(m) == Lower(drugName);
    TableNamesCapitalized(region.value, p, m);
  }

  /** New York stocks all four, so there any spelling of them is available. */
  lemma NewYorkStocksEveryKnownMedicine(drugName: string)
    ensures AvailableInRegion(Some("NY"), drugName) == Some(Lower(drugName) in KnownMedicines)
  {
    AvailabilityIgnoresCase("NY", drugName);
    var ny := PharmaciesIn("NY");
    var l := Lower(drugName);
    if l in KnownMedicines {
      var p, m;
      if l == Lower("Aspirin") {
        p, m := ny[0], "Aspirin";
      } else if l == Lower("Ibuprofen") {
        p, m := ny[0], "Ibuprofen";
      } else if l == Lower("Paracetamol") {
        p, m := ny[1], "Paracetamol";
      } else {
        p, m := ny[1], "Cetirizine";
      }
      assert p in ny && m in p.availableMedicines && Lower(m) == l;
    } else if AvailableInRegion(Some("NY"), drugName) == Some(true) {
      AvailableOnlyForListedMedicines(Some("NY"), drugName);
    }
  }
}
