/**
 * Choice of the coordinates used for the weather lookup (script.py): a GPS fix
 * when the geolocation widget reports a truthy latitude, otherwise the
 * coordinates of the city picked in the sidebar.
 */
module Location {
  import opened Wrappers

  datatype Coordinates = Coordinates(lat: real, lon: real)

  /** The fallback cities, in the order the dictionary literal lists them. */
  const CityNames: seq<string> := ["Warszawa", "Kraków", "Poznań", "Wrocław", "Lublin", "Białystok", "Łódź"]

  const CityCoords: map<string, Coordinates> := map[
    "Warszawa" := Coordinates(52.23, 21.01),
    "Kraków" := Coordinates(50.06, 19.94),
    "Poznań" := Coordinates(52.41, 16.92),
    "Wrocław" := Coordinates(51.11, 17.03),
    "Lublin" := Coordinates(51.25, 22.57),
    "Białystok" := Coordinates(53.13, 23.16),
    "Łódź" := Coordinates(51.75, 19.46)
  ]

  const GpsLabel: string := "Twoja lokalizacja (GPS)"

  /** What the geolocation widget reports; both fields are None until the browser grants a fix. */
  datatype Geolocation = Geolocation(latitude: Option<real>, longitude: Option<real>)

  /** The position handed to the weather lookup: latitude, longitude (None when the widget gave none) and the place name shown. */
  datatype Position = Position(lat: real, lon: Option<real>, name: string)

  /** Python truthiness of `location.get('latitude')`: present and nonzero. */
  function LatitudeTruthy(loc: Geolocation): (truthy: bool)
    ensures !truthy <==> loc.latitude in {None, Some(0.0)}
  {
    loc.latitude.Some? && loc.latitude.value != 0.0
  }

  /** The options of the city select box, `list(CITY_COORDS.keys())`: exactly the table's keys, each once. */
  function CityOptions(): (opts: seq<string>)
    ensures |opts| == |CityCoords| == 7
    ensures forall i :: 0 <= i < |opts| ==> opts[i] in CityCoords
    ensures forall c :: c in CityCoords ==> c in opts
    ensures forall i, j :: 0 <= i < j < |opts| ==> opts[i] != opts[j]
  {
    CityNames
  }

  /** Whatever option the select box returns, the table lookup succeeds. */
  function SelectedCity(choice: nat): (city: string)
    requires choice < |CityOptions()|
    ensures city in CityCoords
  {
    CityOptions()[choice]
  }

  /** The coordinate choice of script.py: GPS when the latitude is truthy, the city table otherwise. */
  function ResolvePosition(loc: Geolocation, selectedCity: string): (p: Position)
    requires selectedCity in CityCoords
    // the GPS fix is used exactly when the latitude is truthy, and the shown name says which source won
    ensures p.name == GpsLabel <==> LatitudeTruthy(loc)
    ensures LatitudeTruthy(loc) ==> p.lat == loc.latitude.value && p.lon == loc.longitude
    // otherwise the selected city's table entry is used, under the city's own name
    ensures !LatitudeTruthy(loc) ==> p.name == selectedCity && p.name in CityCoords
    ensures !LatitudeTruthy(loc) ==> p.lon.Some? && Coordinates(p.lat, p.lon.value) == CityCoords[selectedCity]
  {
    assert GpsLabel !in CityCoords;
    if LatitudeTruthy(loc) then Position(loc.latitude.value, loc.longitude, GpsLabel)
    else
      var c := CityCoords[selectedCity];
      Position(c.lat, Some(c.lon), selectedCity)
  }

  /** A latitude of exactly zero is falsy in Python, so it is treated like a missing fix. */
  lemma ZeroLatitudeFallsBack(lon: Option<real>, selectedCity: string)
    requires selectedCity in CityCoords
    ensures ResolvePosition(Geolocation(Some(0.0), lon), selectedCity) == ResolvePosition(Geolocation(None, None), selectedCity)
    ensures ResolvePosition(Geolocation(Some(0.0), lon), selectedCity).name == selectedCity
  {
  }
}
