/** The city table (`backend/germanCities.js`): the sixteen German states,
    in the source's key order, each with its list of cities, and the
    queries over it. `Object.values` and `Object.keys` follow insertion
    order, which is the order of `Table`. */
module GermanCities {
  import opened Wrappers
  import JsText
  import JsSort

  /** State names with their cities. */
  type StateTable = seq<(string, seq<string>)>

  const BadenWuerttembergCities: seq<string> := [
    "Stuttgart", "Mannheim", "Karlsruhe", "Freiburg im Breisgau", "Heidelberg", "Ulm",
    "Heilbronn", "Pforzheim", "Reutlingen", "Esslingen am Neckar", "Ludwigsburg", "Tübingen",
    "Villingen-Schwenningen", "Konstanz", "Sindelfingen", "Aalen", "Baden-Baden",
    "Friedrichshafen", "Göppingen", "Schwäbisch Gmünd"]
  const BayernCities: seq<string> := [
    "München", "Nürnberg", "Augsburg", "Würzburg", "Regensburg", "Ingolstadt", "Fürth",
    "Erlangen", "Bayreuth", "Bamberg", "Aschaffenburg", "Landshut", "Kempten", "Rosenheim",
    "Neu-Ulm", "Schweinfurt", "Passau", "Freising", "Straubing", "Dachau",
    "Lauf an der Pegnitz", "Landsberg am Lech"]
  const BerlinCities: seq<string> := [
    "Berlin"]
  const BrandenburgCities: seq<string> := [
    "Potsdam", "Cottbus", "Brandenburg an der Havel", "Frankfurt (Oder)", "Oranienburg",
    "Falkensee", "Königs Wusterhausen", "Eberswalde", "Bernau bei Berlin", "Rathenow",
    "Neuruppin", "Schwedt/Oder"]
  const BremenCities: seq<string> := [
    "Bremen", "Bremerhaven"]
  const HamburgCities: seq<string> := [
    "Hamburg"]
  const HessenCities: seq<string> := [
    "Frankfurt am Main", "Wiesbaden", "Kassel", "Darmstadt", "Offenbach am Main", "Hanau",
    "Gießen", "Marburg", "Fulda", "Rüsselsheim am Main", "Wetzlar",
    "Bad Homburg vor der Höhe", "Rodgau", "Oberursel", "Dreieich", "Langen"]
  const MecklenburgVorpommernCities: seq<string> := [
    "Rostock", "Schwerin", "Neubrandenburg", "Stralsund", "Greifswald", "Wismar", "Güstrow",
    "Waren (Müritz)", "Parchim", "Neustrelitz"]
  const NiedersachsenCities: seq<string> := [
    "Hannover", "Braunschweig", "Oldenburg", "Osnabrück", "Wolfsburg", "Göttingen",
    "Salzgitter", "Hildesheim", "Delmenhorst", "Wilhelmshaven", "Lüneburg", "Celle",
    "Garbsen", "Hameln", "Lingen (Ems)", "Langenhagen"]
  const NordrheinWestfalenCities: seq<string> := [
    "Köln", "Düsseldorf", "Dortmund", "Essen", "Duisburg", "Bochum", "Wuppertal", "Bielefeld",
    "Bonn", "Münster", "Mönchengladbach", "Gelsenkirchen", "Aachen", "Krefeld", "Oberhausen",
    "Hagen", "Hamm", "Mülheim an der Ruhr", "Leverkusen", "Solingen", "Herne", "Neuss",
    "Paderborn", "Bottrop", "Recklinghausen", "Remscheid", "Moers", "Siegen", "Gütersloh"]
  const RheinlandPfalzCities: seq<string> := [
    "Mainz", "Ludwigshafen am Rhein", "Koblenz", "Trier", "Kaiserslautern", "Worms",
    "Neuwied", "Neustadt an der Weinstraße", "Speyer", "Frankenthal", "Bad Kreuznach",
    "Idar-Oberstein", "Pirmasens", "Zweibrücken"]
  const SaarlandCities: seq<string> := [
    "Saarbrücken", "Neunkirchen", "Homburg", "Völklingen", "Sankt Ingbert", "Merzig",
    "Blieskastel", "Dillingen/Saar", "Lebach", "Püttlingen"]
  const SachsenCities: seq<string> := [
    "Dresden", "Leipzig", "Chemnitz", "Zwickau", "Plauen", "Görlitz", "Freiberg", "Bautzen",
    "Freital", "Pirna", "Radebeul", "Meißen", "Döbeln", "Riesa", "Glauchau",
    "Weißwasser/O.L.", "Annaberg-Buchholz"]
  const SachsenAnhaltCities: seq<string> := [
    "Magdeburg", "Halle (Saale)", "Dessau-Roßlau", "Wittenberg", "Stendal", "Weißenfels",
    "Merseburg", "Bernburg (Saale)", "Naumburg (Saale)", "Wernigerode", "Halberstadt",
    "Sangerhausen", "Köthen (Anhalt)"]
  const SchleswigHolsteinCities: seq<string> := [
    "Kiel", "Lübeck", "Flensburg", "Neumünster", "Norderstedt", "Elmshorn", "Pinneberg",
    "Wedel", "Ahrensburg", "Geesthacht", "Henstedt-Ulzburg", "Reinbek", "Bad Oldesloe",
    "Schleswig", "Husum", "Heide"]
  const ThueringenCities: seq<string> := [
    "Erfurt", "Jena", "Gera", "Weimar", "Gotha", "Nordhausen", "Eisenach", "Suhl",
    "Altenburg", "Mühlhausen/Thüringen", "Ilmenau", "Saalfeld/Saale", "Arnstadt", "Greiz",
    "Sonneberg", "Meiningen"]

  /** State name and its cities, in the source's key order. */
  const Table: StateTable := [
    ("Baden-Württemberg", BadenWuerttembergCities),
    ("Bayern", BayernCities),
    ("Berlin", BerlinCities),
    ("Brandenburg", BrandenburgCities),
    ("Bremen", BremenCities),
    ("Hamburg", HamburgCities),
    ("Hessen", HessenCities),
    ("Mecklenburg-Vorpommern", MecklenburgVorpommernCities),
    ("Niedersachsen", NiedersachsenCities),
    ("Nordrhein-Westfalen", NordrheinWestfalenCities),
    ("Rheinland-Pfalz", RheinlandPfalzCities),
    ("Saarland", SaarlandCities),
    ("Sachsen", SachsenCities),
    ("Sachsen-Anhalt", SachsenAnhaltCities),
    ("Schleswig-Holstein", SchleswigHolsteinCities),
    ("Thüringen", ThueringenCities)
  ]

  /** The members every object inherits from `Object.prototype`; reading
      one of them from the table yields a truthy value. */
  const PrototypeMembers: set<string> := {
    "constructor", "__proto__", "hasOwnProperty", "isPrototypeOf", "propertyIsEnumerable",
    "toString", "toLocaleString", "valueOf", "__defineGetter__", "__defineSetter__",
    "__lookupGetter__", "__lookupSetter__"
  }

  /** Every state's cities, state after state. */
  function Concat(table: StateTable): (r: seq<string>)
    ensures forall c :: c in r <==> exists i :: 0 <= i < |table| && c in table[i].1
    decreases |table|
  {
    if table == [] then []
    else
      var init := table[..|table| - 1];
      assert forall i :: 0 <= i < |init| ==> init[i] == table[i];
      Concat(init) + table[|table| - 1].1
  }

  /** `getAllGermanCities()`: the cities of all states pushed into a fresh
      array, state after state, then sorted. */
  method AllGermanCities() returns (cities: seq<string>)
    ensures JsSort.Sorted(cities)
    ensures multiset(cities) == multiset(Concat(Table))
  {
    var all: seq<string> := [];
    for i := 0 to |Table|
      invariant all == Concat(Table[..i])
    {
      assert Table[..i + 1][..i] == Table[..i];
      all := all + Table[i].1;
    }
    assert Table[..|Table|] == Table;
    cities := JsSort.Sort(all);
  }

  /** The list of `state` if the table has that key. */
  function Lookup(table: StateTable, state: string): (r: Option<seq<string>>)
    ensures r.None? <==> forall i :: 0 <= i < |table| ==> table[i].0 != state
    ensures r.Some? ==> exists i :: 0 <= i < |table| && table[i] == (state, r.value)
    decreases |table|
  {
    if table == [] then None
    else if table[0].0 == state then Some(table[0].1)
    else
      assert forall i :: 0 < i < |table| ==> table[i] == table[1..][i - 1];
      Lookup(table[1..], state)
  }

  /** The table's keys in order. */
  function Keys(table: StateTable): (r: seq<string>)
    ensures |r| == |table|
    ensures forall i :: 0 <= i < |table| ==> r[i] == table[i].0
  {
    seq(|table|, i requires 0 <= i < |table| => table[i].0)
  }

  /** No state occurs twice and every state has at least one city. */
  ghost predicate WellFormed(table: StateTable) {
    (forall i, j :: 0 <= i < j < |table| ==> table[i].0 != table[j].0)
    && (forall i :: 0 <= i < |table| ==> table[i].1 != [])
  }

  /** The own list of `state` in a well-formed table, or the empty list. */
  function OwnCities(table: StateTable, state: string): (r: seq<string>)
    requires WellFormed(table)
    ensures r != [] <==> state in Keys(table)
    ensures forall i :: 0 <= i < |table| && table[i].0 == state ==> r == table[i].1
  {
    Lookup(table, state).GetOr([])
  }

  /** What a property read on the table yields. */
  datatype Property = Value(cities: seq<string>) | Inherited(name: string)

  /** `getCitiesByState(state)`, as written: a name the table does not own
      but every object inherits (such as "constructor") yields that
      inherited member, which is truthy, instead of the empty list. */
  function CitiesByStateAsWritten(state: string): (r: Property)
    ensures r.Inherited? <==> Lookup(Table, state).None? && state in PrototypeMembers
    ensures r.Value? ==> r.cities == CitiesByState(state)
  {
    match Lookup(Table, state)
    case Some(cities) => Value(cities)
    case None => if state in PrototypeMembers then Inherited(state) else Value([])
  }

  /** `getCitiesByState(state)` as intended: the state's own list, and the
      empty list for every name that is not a state. */
  function CitiesByState(state: string): (r: seq<string>)
    ensures r != [] <==> state in GermanStates()
    ensures forall i :: 0 <= i < |Table| && Table[i].0 == state ==> r == Table[i].1
  {
    TableWellFormed();
    OwnCities(Table, state)
  }

  /** `getGermanStates()`: the table's keys in order. */
  function GermanStates(): (r: seq<string>)
    ensures |r| == |Table| == 16
    ensures forall i :: 0 <= i < |Table| ==> r[i] == Table[i].0
  {
    Keys(Table)
  }

  /** `searchGermanCities` keeps a city when its lower-cased name contains
      the lower-cased term. */
  predicate Matches(city: string, term: string) {
    JsText.Includes(JsText.ToLower(city), JsText.ToLower(term))
  }

  /** `cities.filter(city => Matches(city, term))`: every matching city as
      often as it occurs, in order. */
  function Matching(cities: seq<string>, term: string): (r: seq<string>)
    ensures forall c :: c in r <==> c in cities && Matches(c, term)
    ensures forall c :: multiset(r)[c] == if Matches(c, term) then multiset(cities)[c] else 0
    ensures (forall c :: c in cities ==> Matches(c, term)) ==> r == cities
    decreases |cities|
  {
    if cities == [] then []
    else
      var rest := Matching(cities[1..], term);
      assert cities == [cities[0]] + cities[1..];
      if Matches(cities[0], term) then [cities[0]] + rest else rest
  }

  /** Filtering a sorted list keeps it sorted. */
  lemma {:induction false} MatchingSorted(cities: seq<string>, term: string)
    requires JsSort.Sorted(cities)
    ensures JsSort.Sorted(Matching(cities, term))
    decreases |cities|
  {
    if cities != [] {
      JsSort.SortedTail(cities);
      MatchingSorted(cities[1..], term);
      var rest := Matching(cities[1..], term);
      if Matches(cities[0], term) {
        forall c | c in rest ensures JsSort.CodeUnitLeq(cities[0], c) {
          JsSort.SortedHeadFirst(cities, c);
        }
        JsSort.SortedCons(cities[0], rest);
      }
    }
  }

  /** `searchGermanCities(term)`: the sorted cities whose name contains the
      term, ignoring case; the empty term finds every city. */
  method SearchGermanCities(term: string) returns (found: seq<string>)
    ensures JsSort.Sorted(found)
    ensures forall c :: c in found <==> c in Concat(Table) && Matches(c, term)
    ensures forall c :: multiset(found)[c] == if Matches(c, term) then multiset(Concat(Table))[c] else 0
    ensures term == "" ==> multiset(found) == multiset(Concat(Table))
  {
    var all := AllGermanCities();
    found := Matching(all, term);
    MatchingSorted(all, term);
    forall c ensures c in all <==> c in Concat(Table) {
      assert c in all <==> c in multiset(all);
    }
    if term == "" {
      forall c | c in all ensures Matches(c, term) {
        assert JsText.ToLower(term) == "";
        JsText.EmptyIsIncluded(JsText.ToLower(c));
      }
    }
  }

  /** `getMajorGermanCities()`: a fixed list of fifty cities. */
  function MajorGermanCities(): (r: seq<string>)
    ensures |r| == 50
  {
    [
    "Berlin", "Hamburg", "München", "Köln", "Frankfurt am Main", "Stuttgart", "Düsseldorf",
    "Leipzig", "Dortmund", "Essen", "Bremen", "Dresden", "Hannover", "Nürnberg", "Duisburg",
    "Bochum", "Wuppertal", "Bielefeld", "Bonn", "Münster", "Mannheim", "Karlsruhe",
    "Augsburg", "Wiesbaden", "Mönchengladbach", "Gelsenkirchen", "Aachen", "Braunschweig",
    "Chemnitz", "Kiel", "Krefeld", "Halle (Saale)", "Magdeburg", "Freiburg im Breisgau",
    "Oberhausen", "Lübeck", "Erfurt", "Mainz", "Rostock", "Kassel", "Hagen", "Saarbrücken",
    "Hamm", "Mülheim an der Ruhr", "Potsdam", "Ludwigshafen am Rhein", "Oldenburg",
    "Leverkusen", "Osnabrück", "Solingen"
    ]
  }

  // -----------------------------------------------------------------------
  // Properties

  /** No state name occurs twice in the table, and every state has at
      least one city. */
  lemma TableWellFormed()
    ensures WellFormed(Table)
  {
    StatesDistinct();
    EveryStateHasCities();
  }

  lemma StatesDistinct()
    ensures forall i, j :: 0 <= i < j < |Table| ==> Table[i].0 != Table[j].0
  {
  }

  lemma EveryStateHasCities()
    ensures forall i :: 0 <= i < |Table| ==> Table[i].1 != []
  {
  }

  /** Every state name starts with a capital letter. */
  lemma StatesCapitalised()
    ensures forall i :: 0 <= i < |Table| ==> Table[i].0 != [] && 'A' <= Table[i].0[0] <= 'Z'
  {
  }

  /** Reading "constructor" from the table as written yields an inherited
      member rather than a list of cities; the intended lookup yields none. */
  lemma PrototypeKeyLeaks()
    ensures CitiesByStateAsWritten("constructor") == Inherited("constructor")
    ensures CitiesByState("constructor") == []
  {
    StatesCapitalised();
    assert Lookup(Table, "constructor").None?;
  }

  /** The search ignores the letter case of the term. */
  lemma {:induction false} SearchIgnoresCase(cities: seq<string>, term: string)
    ensures Matching(cities, JsText.ToLower(term)) == Matching(cities, term)
    decreases |cities|
  {
    JsText.ToLowerIdempotent(term);
    if cities != [] {
      SearchIgnoresCase(cities[1..], term);
    }
  }
}
