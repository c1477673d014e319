module CityTable {
  import opened CityLookup
  import opened Strings

  /** `PINELLAS_CITY_MAP` as the file defines it: tax-district codes and
      upper-case city names to the city's own name. */
  const PinellasCityMap: map<string, string> := map[
    "SP" := "St. Petersburg",
    "ST PETERSBURG" := "St. Petersburg",
    "ST. PETERSBURG" := "St. Petersburg",
    "CLEARWATER" := "Clearwater",
    "CW" := "Clearwater",
    "CWD" := "Clearwater",
    "LARGO" := "Largo",
    "LA" := "Largo",
    "PINELLAS PARK" := "Pinellas Park",
    "PP" := "Pinellas Park",
    "DUNEDIN" := "Dunedin",
    "TARPON SPRINGS" := "Tarpon Springs",
    "TS" := "Tarpon Springs",
    "SEMINOLE" := "Seminole",
    "KENNETH CITY" := "Kenneth City",
    "GULFPORT" := "Gulfport",
    "MB" := "Madeira Beach",
    "MADEIRA BEACH" := "Madeira Beach",
    "REDINGTON BEACH" := "Redington Beach",
    "TREASURE ISLAND" := "Treasure Island",
    "ST PETE BEACH" := "St. Pete Beach",
    "SOUTH PASADENA" := "South Pasadena",
    "BELLEAIR" := "Belleair",
    "BELLEAIR BEACH" := "Belleair Beach",
    "BELLEAIR BLUFFS" := "Belleair Bluffs",
    "INDIAN ROCKS BEACH" := "Indian Rocks Beach",
    "INDIAN SHORES" := "Indian Shores",
    "NORTH REDINGTON BEACH" := "North Redington Beach",
    "OLDSMAR" := "Oldsmar",
    "SAFETY HARBOR" := "Safety Harbor",
    "LFPW" := "Unincorporated Pinellas (Lealman)",
    "LEALMAN" := "Unincorporated Pinellas (Lealman)",
    "UNINCORPORATED" := "Unincorporated Pinellas",
    "COUNTY" := "Unincorporated Pinellas"
  ]

  /** A known code is looked up; the empty code gets the default. */
  lemma ExpandCityNameExamples()
    ensures ExpandCityName(PinellasCityMap, "SP") == "St. Petersburg"
    ensures ExpandCityName(PinellasCityMap, "") == "Unincorporated Pinellas"
  {
    CityKeyExample();
    assert "SP" in PinellasCityMap && PinellasCityMap["SP"] == "St. Petersburg";
  }

  lemma CityKeyExample()
    ensures CityKey("SP") == "SP"
  {
    assert Strip("SP") == "SP" by {
      assert Stripped("SP");
    }
    assert Upper("SP") == "SP";
  }
}
