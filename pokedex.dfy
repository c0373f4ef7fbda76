/** The query engine: resolve a species (or a form) from what the user typed,
    then assemble the card of the resolved pokemon, list the forms of a
    species, or gather its Pokédex flavor texts. Each query reads the tables
    of a `Corpus` and either returns its result or the `Error` it raises. */
module Pokedex {
  import opened Wrappers
  import opened Text
  import opened Seqs
  import opened Tables
  import opened Evolution

  /** What a query is given: a string (a name, or digits read as a number), or a number. */
  datatype Identifier = TextId(text: string) | NumberId(number: int)

  /** The language the window asks for (English). */
  const English := 9

  datatype BaseStats = BaseStats(hp: int, attack: int, defense: int,
                                 spAttack: int, spDefense: int, speed: int)

  /** One entry of the evolution line of a card. */
  datatype EvolutionEntry = EvolutionEntry(name: string, image: string, dexNumber: int)

  /** The dictionary `get_pokemon` returns. */
  datatype Card = Card(
    name: string,
    dexNumber: int,
    image: string,
    cries: seq<string>,
    types: seq<string>,
    baseStats: BaseStats,
    evolutionLine: seq<EvolutionEntry>,
    forms: seq<string>)

  /** The dictionary `get_pokedex_flavor` returns. */
  datatype Flavor = Flavor(versions: seq<string>, flavorTexts: seq<string>)

  // ------------------------------------------------------------ resolution

  /** Whether a row with this id and identifier answers to `ident`: a string
      that parses as a number is compared with the id, any other string with
      the identifier, case-insensitively; a number is compared with the id. */
  predicate IdentMatch(ident: Identifier, id: int, identifier: string) {
    match ident
    case TextId(s) =>
      (match ParseDecimal(s)
       case Some(n) => id == n
       case None => Lower(identifier) == Lower(s))
    case NumberId(n) => id == n
  }

  function SpeciesMatcher(ident: Identifier): SpeciesRow -> bool {
    (row: SpeciesRow) => IdentMatch(ident, row.id, row.identifier)
  }

  function PokemonMatcher(ident: Identifier): PokemonRow -> bool {
    (row: PokemonRow) => IdentMatch(ident, row.id, row.identifier)
  }

  function HasId(id: int): PokemonRow -> bool {
    (row: PokemonRow) => row.id == id
  }

  /** A pokemon row whose lower-cased identifier equals the requested form as given. */
  function HasFormName(form: string): PokemonRow -> bool {
    (row: PokemonRow) => Lower(row.identifier) == form
  }

  /** The species rows that answer to `ident`, in table order. */
  function SpeciesMatches(c: Corpus, ident: Identifier): seq<SpeciesRow> {
    Filter(c.species, SpeciesMatcher(ident))
  }

  /** The id selected before the final pokemon lookup: the first matching
      species' id, or, when a form is given, the id of the first pokemon row
      of ANY species whose lower-cased identifier is the form. */
  function SelectedId(c: Corpus, first: SpeciesRow, form: Option<string>): (r: Result<int, Error>)
    ensures r.Err? ==> form.Some? && r.error == FormNotFound
    ensures r.Ok? && form.Some? ==>
              exists row :: row in c.pokemon && Lower(row.identifier) == form.value && row.id == r.value
  {
    match form
    case None => Ok(first.id)
    case Some(f) =>
      var rows := Filter(c.pokemon, HasFormName(f));
      if rows == [] then Err(FormNotFound) else assert rows[0] in rows; Ok(rows[0].id)
  }

  /** The pokemon row `get_pokemon` works on. */
  function Resolve(c: Corpus, ident: Identifier, form: Option<string>): (r: Result<PokemonRow, Error>)
    ensures r.Ok? ==> r.value in c.pokemon
    ensures r.Err? ==> r.error == NotFound || r.error == FormNotFound || r.error == NoPokemonRow
  {
    var matches := SpeciesMatches(c, ident);
    if matches == [] then Err(NotFound)
    else
      var id :- SelectedId(c, matches[0], form);
      var rows := Filter(c.pokemon, HasId(id));
      if rows == [] then Err(NoPokemonRow) else Ok(rows[0])
  }

  /** NotFound exactly when no species answers to the identifier; FormNotFound
      exactly when one does but no pokemon row of any species is named like
      the form. */
  lemma ResolveErrors(c: Corpus, ident: Identifier, form: Option<string>)
    ensures Resolve(c, ident, form) == Err(NotFound) <==>
              forall row :: row in c.species ==> !IdentMatch(ident, row.id, row.identifier)
    ensures Resolve(c, ident, form) == Err(FormNotFound) <==>
              form.Some? && (exists row :: row in c.species && IdentMatch(ident, row.id, row.identifier))
              && forall row :: row in c.pokemon ==> Lower(row.identifier) != form.value
  {
    FilterEmpty(c.species, SpeciesMatcher(ident));
    if form.Some? {
      FilterEmpty(c.pokemon, HasFormName(form.value));
      var rows := Filter(c.pokemon, HasFormName(form.value));
      if rows != [] {
        assert rows[0] in rows;
        assert Filter(c.pokemon, HasId(rows[0].id)) != [] by {
          FilterEmpty(c.pokemon, HasId(rows[0].id));
        }
      }
    }
  }

  /** Without a form: the result is the first pokemon row carrying the id of
      the first species row that answers to the identifier, and the lookup
      fails with NoPokemonRow exactly when no pokemon row carries that id. */
  lemma ResolveWithoutForm(c: Corpus, ident: Identifier, first: SpeciesRow)
    requires IsFirst(c.species, first, SpeciesMatcher(ident))
    ensures Resolve(c, ident, None) == Err(NoPokemonRow) <==>
              forall row :: row in c.pokemon ==> row.id != first.id
    ensures Resolve(c, ident, None).Ok? ==>
              IsFirst(c.pokemon, Resolve(c, ident, None).value, HasId(first.id))
  {
    FilterFirst(c.species, SpeciesMatcher(ident));
    FirstUnique(c.species, first, SpeciesMatches(c, ident)[0], SpeciesMatcher(ident));
    var rows := Filter(c.pokemon, HasId(first.id));
    if rows != [] {
      FilterFirst(c.pokemon, HasId(first.id));
    }
  }

  /** With a form: the species only has to exist; the result is the first
      pokemon row carrying the id of the first row named like the form. */
  lemma ResolveWithForm(c: Corpus, ident: Identifier, form: string, named: PokemonRow)
    requires SpeciesMatches(c, ident) != []
    requires IsFirst(c.pokemon, named, HasFormName(form))
    ensures Resolve(c, ident, Some(form)).Ok?
    ensures IsFirst(c.pokemon, Resolve(c, ident, Some(form)).value, HasId(named.id))
  {
    FilterFirst(c.pokemon, HasFormName(form));
    FirstUnique(c.pokemon, named, Filter(c.pokemon, HasFormName(form))[0], HasFormName(form));
    FilterFirst(c.pokemon, HasId(named.id));
  }

  /** The form is looked up in the whole pokemon table: any identifier that
      names some species resolves to the same row. */
  lemma FormIgnoresSpecies(c: Corpus, x: Identifier, y: Identifier, form: string)
    requires SpeciesMatches(c, x) != [] && SpeciesMatches(c, y) != []
    ensures Resolve(c, x, Some(form)) == Resolve(c, y, Some(form))
  {
  }

  /** The form is compared as given, against lower-cased identifiers: a form
      holding an upper-case letter is never found. */
  lemma UpperCaseFormNotFound(c: Corpus, ident: Identifier, form: string, i: int)
    requires 0 <= i < |form| && IsUpper(form[i])
    ensures Resolve(c, ident, Some(form)).Err?
  {
    forall row | row in c.pokemon ensures Lower(row.identifier) != form {
      if |Lower(row.identifier)| == |form| {
        assert !IsUpper(Lower(row.identifier)[i]);
      }
    }
    ResolveErrors(c, ident, Some(form));
    FilterEmpty(c.species, SpeciesMatcher(ident));
  }

  /** A species is found by its printed id and by its name alike, when its
      name is not itself a number and no other species shares the name. */
  lemma DexAndNameAgree(c: Corpus, row: SpeciesRow)
    requires row in c.species && UniqueIds(c.species) && row.id >= 0
    requires ParseDecimal(row.identifier).None?
    requires forall other :: other in c.species && Lower(other.identifier) == Lower(row.identifier) ==> other == row
    ensures Resolve(c, TextId(IntToString(row.id)), None) == Resolve(c, TextId(row.identifier), None)
  {
    ParseNatToString(row.id);
    var byDex := TextId(IntToString(row.id));
    var byName := TextId(row.identifier);
    assert row in SpeciesMatches(c, byDex) && row in SpeciesMatches(c, byName);
    var a := SpeciesMatches(c, byDex)[0];
    var b := SpeciesMatches(c, byName)[0];
    assert a in SpeciesMatches(c, byDex) && b in SpeciesMatches(c, byName);
    SameIdSameRow(c.species, a, row);
  }

  // ------------------------------------------------------------------ types

  function TypeSlotOf(pokemonId: int): PokemonTypeRow -> bool {
    (a: PokemonTypeRow) => a.pokemonId == pokemonId
  }

  function TypeIdColumn(): PokemonTypeRow -> int {
    (a: PokemonTypeRow) => a.typeId
  }

  function TypeIn(ids: seq<int>): TypeRow -> bool {
    (t: TypeRow) => t.id in ids
  }

  function TypeIdentifierColumn(): TypeRow -> string {
    (t: TypeRow) => t.identifier
  }

  /** The type ids the pokemon_types table lists for a pokemon, in table order. */
  function TypeIdsOf(c: Corpus, pokemonId: int): seq<int> {
    Map(Filter(c.pokemonTypes, TypeSlotOf(pokemonId)), TypeIdColumn())
  }

  /** Type names of a pokemon: the rows of the types table whose id is one
      of its type ids, in types-table order. */
  function TypeNames(c: Corpus, pokemonId: int): (r: seq<string>)
    ensures |r| <= |c.types|
  {
    var ids := TypeIdsOf(c, pokemonId);
    Map(Filter(c.types, TypeIn(ids)), TypeIdentifierColumn())
  }

  /** A name is listed exactly when the types table gives it to a type id
      the pokemon_types table lists for the pokemon. */
  lemma TypeNamesMembers(c: Corpus, pokemonId: int)
    ensures forall n :: n in TypeNames(c, pokemonId) <==>
              exists t :: t in c.types && t.identifier == n
                          && exists a :: a in c.pokemonTypes && a.pokemonId == pokemonId && a.typeId == t.id
  {
    var slots := Filter(c.pokemonTypes, TypeSlotOf(pokemonId));
    MapMembers(slots, TypeIdColumn());
    var ids := TypeIdsOf(c, pokemonId);
    MapMembers(Filter(c.types, TypeIn(ids)), TypeIdentifierColumn());
  }

  /** The order of a pokemon's type slots does not matter: only the set of
      its type ids and the types table do. */
  lemma TypesIgnoreSlotOrder(c: Corpus, d: Corpus, pokemonId: int)
    requires c.types == d.types
    requires forall t :: t in TypeIdsOf(c, pokemonId) <==> t in TypeIdsOf(d, pokemonId)
    ensures TypeNames(c, pokemonId) == TypeNames(d, pokemonId)
  {
    var ci := TypeIdsOf(c, pokemonId);
    var di := TypeIdsOf(d, pokemonId);
    FilterExtensional(c.types, TypeIn(ci), TypeIn(di));
  }

  /** The "types" field: the names joined with ", " and split again. */
  function TypesField(names: seq<string>): (r: seq<string>)
    ensures r != []
  {
    Split(Join(names))
  }

  /** The join and split give back the names when there is at least one and
      none holds ", "; a pokemon without types gets one empty name. */
  lemma TypesFieldRoundTrip(names: seq<string>)
    ensures names == [] ==> TypesField(names) == [""]
    ensures names != [] && (forall k :: 0 <= k < |names| ==> HasNoSep(names[k])) ==>
              TypesField(names) == names
  {
    if names == [] {
      SplitJoinEmpty();
    } else if forall k :: 0 <= k < |names| ==> HasNoSep(names[k]) {
      SplitJoin(names);
    }
  }

  // ------------------------------------------------------------------ stats

  function HasStat(pokemonId: int, statId: int): PokemonStatRow -> bool {
    (row: PokemonStatRow) => row.pokemonId == pokemonId && row.statId == statId
  }

  /** The base stat `statId` of a pokemon, from the first row matching both the
      pokemon and the stat (the rows of the pokemon, then those of the stat). */
  function StatValue(c: Corpus, pokemonId: int, statId: int): (r: Result<int, Error>)
    ensures r.Err? ==> r.error == MissingStat(statId)
  {
    var rows := Filter(c.pokemonStats, HasStat(pokemonId, statId));
    if rows == [] then Err(MissingStat(statId)) else Ok(rows[0].baseStat)
  }

  /** A stat is missing exactly when no row gives it; otherwise it is the
      base stat of the first row for that pokemon and stat. */
  lemma StatValueMeaning(c: Corpus, pokemonId: int, statId: int)
    ensures StatValue(c, pokemonId, statId).Err? <==>
              forall row :: row in c.pokemonStats ==> !(row.pokemonId == pokemonId && row.statId == statId)
    ensures StatValue(c, pokemonId, statId).Ok? ==>
              exists row :: IsFirst(c.pokemonStats, row, HasStat(pokemonId, statId))
                            && row.baseStat == StatValue(c, pokemonId, statId).value
  {
    FilterEmpty(c.pokemonStats, HasStat(pokemonId, statId));
    if Filter(c.pokemonStats, HasStat(pokemonId, statId)) != [] {
      FilterFirst(c.pokemonStats, HasStat(pokemonId, statId));
    }
  }

  function StatsOfPokemon(pokemonId: int): PokemonStatRow -> bool {
    (row: PokemonStatRow) => row.pokemonId == pokemonId
  }

  function StatIs(statId: int): PokemonStatRow -> bool {
    (row: PokemonStatRow) => row.statId == statId
  }

  /** The two masks of the engine, the stat rows of the pokemon and then the
      rows of one stat among them, select what `HasStat` selects. */
  lemma StatRowsTwoStep(c: Corpus, pokemonId: int, statId: int)
    ensures Filter(Filter(c.pokemonStats, StatsOfPokemon(pokemonId)), StatIs(statId))
            == Filter(c.pokemonStats, HasStat(pokemonId, statId))
  {
    FilterFilter(c.pokemonStats, StatsOfPokemon(pokemonId), StatIs(statId), HasStat(pokemonId, statId));
  }

  /** Stat ids 1 to 6 are HP, Attack, Defense, Sp. Atk, Sp. Def and Speed. */
  function StatOf(stats: BaseStats, statId: int): int
    requires 1 <= statId <= 6
  {
    match statId
    case 1 => stats.hp
    case 2 => stats.attack
    case 3 => stats.defense
    case 4 => stats.spAttack
    case 5 => stats.spDefense
    case _ => stats.speed
  }

  /** The six base stats of a pokemon; the first missing one raises. */
  function BaseStatsOf(c: Corpus, pokemonId: int): (r: Result<BaseStats, Error>)
    ensures r.Ok? ==> forall s :: 1 <= s <= 6 ==> StatValue(c, pokemonId, s) == Ok(StatOf(r.value, s))
    ensures r.Err? ==> r.error.MissingStat? && 1 <= r.error.statId <= 6
                       && StatValue(c, pokemonId, r.error.statId).Err?
                       && forall t :: 1 <= t < r.error.statId ==> StatValue(c, pokemonId, t).Ok?
  {
    var hp :- StatValue(c, pokemonId, 1);
    var attack :- StatValue(c, pokemonId, 2);
    var defense :- StatValue(c, pokemonId, 3);
    var spAttack :- StatValue(c, pokemonId, 4);
    var spDefense :- StatValue(c, pokemonId, 5);
    var speed :- StatValue(c, pokemonId, 6);
    Ok(BaseStats(hp, attack, defense, spAttack, spDefense, speed))
  }

  // ------------------------------------------------------ names and images

  function NameOf(speciesId: int, language: int): SpeciesNameRow -> bool {
    (row: SpeciesNameRow) => row.speciesId == speciesId && row.localLanguageId == language
  }

  /** The species-names rows of the species, then those of the language: the
      first name given to the species in that language, if any. */
  function LocalizedName(c: Corpus, speciesId: int, language: int): (r: Option<string>)
    ensures r.Some? ==> exists row :: row in c.speciesNames && row.speciesId == speciesId
                                      && row.localLanguageId == language && row.name == r.value
  {
    var rows := Filter(c.speciesNames, NameOf(speciesId, language));
    if rows == [] then None else assert rows[0] in rows; Some(rows[0].name)
  }

  function NameOfSpecies(speciesId: int): SpeciesNameRow -> bool {
    (row: SpeciesNameRow) => row.speciesId == speciesId
  }

  function NameInLanguage(language: int): SpeciesNameRow -> bool {
    (row: SpeciesNameRow) => row.localLanguageId == language
  }

  /** The two masks of the engine, the names of the species and then those
      in the language, select what `NameOf` selects. */
  lemma NameRowsTwoStep(c: Corpus, speciesId: int, language: int)
    ensures Filter(Filter(c.speciesNames, NameOfSpecies(speciesId)), NameInLanguage(language))
            == Filter(c.speciesNames, NameOf(speciesId, language))
  {
    FilterFilter(c.speciesNames, NameOfSpecies(speciesId), NameInLanguage(language), NameOf(speciesId, language));
  }

  /** None exactly when the species has no name in the language; otherwise
      the name of its first row in that language. */
  lemma LocalizedNameMeaning(c: Corpus, speciesId: int, language: int)
    ensures LocalizedName(c, speciesId, language).None? <==>
              forall row :: row in c.speciesNames ==> !(row.speciesId == speciesId && row.localLanguageId == language)
    ensures LocalizedName(c, speciesId, language).Some? ==>
              exists row :: IsFirst(c.speciesNames, row, NameOf(speciesId, language))
                            && row.name == LocalizedName(c, speciesId, language).value
  {
    FilterEmpty(c.speciesNames, NameOf(speciesId, language));
    if Filter(c.speciesNames, NameOf(speciesId, language)) != [] {
      FilterFirst(c.speciesNames, NameOf(speciesId, language));
    }
  }

  /** The card's name: the localized name, else the identifier capitalized. */
  function DisplayName(c: Corpus, p: PokemonRow, language: int): (r: string)
    ensures LocalizedName(c, p.speciesId, language).Some? ==> r == LocalizedName(c, p.speciesId, language).value
    ensures LocalizedName(c, p.speciesId, language).None? ==>
              |r| == |p.identifier| && Lower(r) == Lower(p.identifier)
  {
    match LocalizedName(c, p.speciesId, language)
    case Some(n) => n
    case None => Capitalize(p.identifier)
  }

  const SpriteDir := "data/sprites/sprites/pokemon/"
  const CryDir := "data/cries/cries/pokemon/latest/"

  function SpritePath(id: int): string {
    SpriteDir + IntToString(id) + ".png"
  }

  function CryPath(id: int): string {
    CryDir + IntToString(id) + ".ogg"
  }

  /** Different pokemon get different sprite files. */
  lemma SpritePathInjective(a: int, b: int)
    requires SpritePath(a) == SpritePath(b)
    ensures a == b
  {
    var sa := IntToString(a);
    var sb := IntToString(b);
    assert |sa| == |sb|;
    assert sa == SpritePath(a)[|SpriteDir|..|SpriteDir| + |sa|];
    assert sb == SpritePath(b)[|SpriteDir|..|SpriteDir| + |sb|];
    IntToStringInjective(a, b);
  }

  /** Different pokemon get different cry files. */
  lemma CryPathInjective(a: int, b: int)
    requires CryPath(a) == CryPath(b)
    ensures a == b
  {
    var sa := IntToString(a);
    var sb := IntToString(b);
    assert |sa| == |sb|;
    assert sa == CryPath(a)[|CryDir|..|CryDir| + |sa|];
    assert sb == CryPath(b)[|CryDir|..|CryDir| + |sb|];
    IntToStringInjective(a, b);
  }

  // -------------------------------------------------------------- evolution

  function SpeciesWithId(id: int): SpeciesRow -> bool {
    (row: SpeciesRow) => row.id == id
  }

  function InChain(chainId: int): SpeciesRow -> bool {
    (row: SpeciesRow) => row.evolutionChainId == chainId
  }

  /** The species rows of one evolution chain, in table order. */
  function Chain(c: Corpus, chainId: int): (r: seq<SpeciesRow>)
    requires UniqueIds(c.species)
    ensures UniqueIds(r)
  {
    FilterKeepsUniqueIds(c.species, InChain(chainId));
    Filter(c.species, InChain(chainId))
  }

  /** The evolution-line entry of one species id of the chain order: None when
      no pokemon row carries that id; otherwise the localized name or the
      identifier as it is (not capitalized), the sprite, and that row's species. */
  function EntryFor(c: Corpus, id: int, language: int): Option<EvolutionEntry> {
    var rows := Filter(c.pokemon, HasId(id));
    if rows == [] then None
    else
      var name := match LocalizedName(c, id, language)
                  case Some(n) => n
                  case None => rows[0].identifier;
      Some(EvolutionEntry(name, SpritePath(id), rows[0].speciesId))
  }

  /** An id gets an entry exactly when some pokemon row carries it; the entry
      describes the first such row. */
  lemma EntryForMeaning(c: Corpus, id: int, language: int)
    ensures EntryFor(c, id, language).None? <==> forall row :: row in c.pokemon ==> row.id != id
    ensures EntryFor(c, id, language).Some? ==>
              var e := EntryFor(c, id, language).value;
              e.image == SpritePath(id)
              && exists row :: IsFirst(c.pokemon, row, HasId(id))
                               && e.dexNumber == row.speciesId
                               && (LocalizedName(c, id, language).Some? ==> e.name == LocalizedName(c, id, language).value)
                               && (LocalizedName(c, id, language).None? ==> e.name == row.identifier)
  {
    FilterEmpty(c.pokemon, HasId(id));
    if Filter(c.pokemon, HasId(id)) != [] {
      FilterFirst(c.pokemon, HasId(id));
    }
  }

  function HasPokemonRow(c: Corpus): int -> bool {
    (id: int) => exists row :: row in c.pokemon && row.id == id
  }

  /** The evolution line for a chain order: one entry per id in order,
      skipping ids without a pokemon row. */
  function EvolutionLineSpec(c: Corpus, ids: seq<int>, language: int): (r: seq<EvolutionEntry>)
    ensures |r| <= |ids|
  {
    if ids == [] then []
    else
      EvolutionLineSpec(c, ids[..|ids| - 1], language)
      + (match EntryFor(c, ids[|ids| - 1], language)
         case Some(e) => [e]
         case None => [])
  }

  method BuildEvolutionLine(c: Corpus, ids: seq<int>, language: int) returns (line: seq<EvolutionEntry>)
    ensures line == EvolutionLineSpec(c, ids, language)
  {
    line := [];
    for i := 0 to |ids|
      invariant line == EvolutionLineSpec(c, ids[..i], language)
    {
      assert ids[..i + 1][..i] == ids[..i];
      var entry := EntryFor(c, ids[i], language);
      if entry.Some? {
        line := line + [entry.value];
      }
    }
    assert ids[..|ids|] == ids;
  }

  /** The line holds exactly the entries of the ids that have a pokemon row, in order. */
  lemma {:induction false} EvolutionLineKeepsOrder(c: Corpus, ids: seq<int>, language: int)
    ensures var kept := Filter(ids, HasPokemonRow(c));
            |EvolutionLineSpec(c, ids, language)| == |kept|
            && forall k :: 0 <= k < |kept| ==>
                 EntryFor(c, kept[k], language) == Some(EvolutionLineSpec(c, ids, language)[k])
  {
    if ids != [] {
      var init := ids[..|ids| - 1];
      var last := ids[|ids| - 1];
      assert ids == init + [last];
      FilterAppend(init, [last], HasPokemonRow(c));
      assert Filter([last], HasPokemonRow(c)) == (if HasPokemonRow(c)(last) then [last] else []) + Filter([], HasPokemonRow(c));
      EntryForSome(c, last, language);
      EvolutionLineKeepsOrder(c, init, language);
      var kept := Filter(ids, HasPokemonRow(c));
      var keptInit := Filter(init, HasPokemonRow(c));
      var line := EvolutionLineSpec(c, ids, language);
      var lineInit := EvolutionLineSpec(c, init, language);
      forall k | 0 <= k < |kept| ensures EntryFor(c, kept[k], language) == Some(line[k]) {
        if k < |keptInit| {
          assert kept[k] == keptInit[k] && line[k] == lineInit[k];
        }
      }
    }
  }

  lemma EntryForSome(c: Corpus, id: int, language: int)
    ensures EntryFor(c, id, language).Some? <==> HasPokemonRow(c)(id)
  {
    EntryForMeaning(c, id, language);
  }

  // ------------------------------------------------------------------- card

  function OfSpeciesId(speciesId: int): PokemonRow -> bool {
    (row: PokemonRow) => row.speciesId == speciesId
  }

  function IdentifierColumn(): PokemonRow -> string {
    (row: PokemonRow) => row.identifier
  }

  /** The forms listed for a species: identifiers of its pokemon rows, in table order. */
  function FormsOf(c: Corpus, speciesId: int): seq<string> {
    Map(Filter(c.pokemon, OfSpeciesId(speciesId)), IdentifierColumn())
  }

  /** A form is listed exactly when a pokemon row of the species carries it,
      once per such row. */
  lemma FormsOfMembers(c: Corpus, speciesId: int)
    ensures forall n :: n in FormsOf(c, speciesId) <==>
              exists row :: row in c.pokemon && row.speciesId == speciesId && row.identifier == n
    ensures |FormsOf(c, speciesId)| == |Filter(c.pokemon, OfSpeciesId(speciesId))|
  {
    MapMembers(Filter(c.pokemon, OfSpeciesId(speciesId)), IdentifierColumn());
  }

  /** What `get_pokemon` returns or raises, in the order it raises. */
  function GetPokemonSpec(c: Corpus, ident: Identifier, form: Option<string>, language: int): Result<Card, Error>
    requires UniqueIds(c.species)
  {
    var p :- Resolve(c, ident, form);
    var speciesRows := Filter(c.species, SpeciesWithId(p.speciesId));
    if speciesRows == [] then Err(NoSpeciesRow)
    else
      var order :- EvolutionOrderSpec(Chain(c, speciesRows[0].evolutionChainId));
      var stats :- BaseStatsOf(c, p.id);
      Ok(Card(DisplayName(c, p, language), p.speciesId, SpritePath(p.id), [CryPath(p.id)],
              TypesField(TypeNames(c, p.id)), stats, EvolutionLineSpec(c, order, language),
              FormsOf(c, p.speciesId)))
  }

  /** `get_pokemon`: resolve, walk the evolution chain, build the line, read the stats. */
  method GetPokemon(c: Corpus, ident: Identifier, form: Option<string>, language: int)
    returns (r: Result<Card, Error>)
    requires UniqueIds(c.species)
    ensures r == GetPokemonSpec(c, ident, form, language)
  {
    var resolved := Resolve(c, ident, form);
    if resolved.Err? {
      return Err(resolved.error);
    }
    var p := resolved.value;
    var typeNames := TypeNames(c, p.id);
    var speciesRows := Filter(c.species, SpeciesWithId(p.speciesId));
    if speciesRows == [] {
      return Err(NoSpeciesRow);
    }
    var order := EvolutionOrder(Chain(c, speciesRows[0].evolutionChainId));
    if order.Err? {
      return Err(order.error);
    }
    var line := BuildEvolutionLine(c, order.value, language);
    var forms := FormsOf(c, p.speciesId);
    var name := DisplayName(c, p, language);
    var stats := BaseStatsOf(c, p.id);
    if stats.Err? {
      return Err(stats.error);
    }
    r := Ok(Card(name, p.speciesId, SpritePath(p.id), [CryPath(p.id)], TypesField(typeNames),
                 stats.value, line, forms));
  }

  /** What a card says about the pokemon row it was resolved to. */
  lemma CardContents(c: Corpus, ident: Identifier, form: Option<string>, language: int, p: PokemonRow, card: Card)
    requires UniqueIds(c.species)
    requires Resolve(c, ident, form) == Ok(p)
    requires GetPokemonSpec(c, ident, form, language) == Ok(card)
    ensures card.dexNumber == p.speciesId
    ensures card.image == SpritePath(p.id) && card.cries == [CryPath(p.id)]
    ensures LocalizedName(c, p.speciesId, language).Some? ==> card.name == LocalizedName(c, p.speciesId, language).value
    ensures LocalizedName(c, p.speciesId, language).None? ==> card.name == Capitalize(p.identifier)
    ensures forall s :: 1 <= s <= 6 ==> StatValue(c, p.id, s) == Ok(StatOf(card.baseStats, s))
    ensures card.forms == FormsOf(c, p.speciesId)
    ensures TypeNames(c, p.id) == [] ==> card.types == [""]
    ensures (forall k :: 0 <= k < |TypeNames(c, p.id)| ==> HasNoSep(TypeNames(c, p.id)[k])) ==>
              card.types == (if TypeNames(c, p.id) == [] then [""] else TypeNames(c, p.id))
  {
    CardFields(c, ident, form, language, p, card);
    TypesFieldRoundTrip(TypeNames(c, p.id));
  }

  /** The fields of a card, each from the query that fills it. */
  lemma CardFields(c: Corpus, ident: Identifier, form: Option<string>, language: int, p: PokemonRow, card: Card)
    requires UniqueIds(c.species)
    requires Resolve(c, ident, form) == Ok(p)
    requires GetPokemonSpec(c, ident, form, language) == Ok(card)
    ensures BaseStatsOf(c, p.id) == Ok(card.baseStats)
    ensures card.name == DisplayName(c, p, language) && card.dexNumber == p.speciesId
    ensures card.image == SpritePath(p.id) && card.cries == [CryPath(p.id)]
    ensures card.types == TypesField(TypeNames(c, p.id)) && card.forms == FormsOf(c, p.speciesId)
  {
  }

  /** The errors of `get_pokemon` after resolution: a missing species row,
      a chain without a root, then a missing stat. */
  lemma CardErrors(c: Corpus, ident: Identifier, form: Option<string>, language: int, p: PokemonRow)
    requires UniqueIds(c.species)
    requires Resolve(c, ident, form) == Ok(p)
    ensures GetPokemonSpec(c, ident, form, language) == Err(NoSpeciesRow) <==>
              forall row :: row in c.species ==> row.id != p.speciesId
    ensures GetPokemonSpec(c, ident, form, language).Err? ==>
              GetPokemonSpec(c, ident, form, language).error in {NoSpeciesRow, NoRoot}
              || GetPokemonSpec(c, ident, form, language).error.MissingStat?
  {
    FilterEmpty(c.species, SpeciesWithId(p.speciesId));
  }

  /** The species row of the resolved pokemon is the one whose chain is walked. */
  lemma SpeciesRowOf(c: Corpus, p: PokemonRow, chainRow: SpeciesRow)
    requires UniqueIds(c.species)
    requires chainRow in c.species && chainRow.id == p.speciesId
    ensures Filter(c.species, SpeciesWithId(p.speciesId)) != []
    ensures Filter(c.species, SpeciesWithId(p.speciesId))[0] == chainRow
  {
    var rows := Filter(c.species, SpeciesWithId(p.speciesId));
    assert chainRow in rows;
    assert rows[0] in rows;
    SameIdSameRow(c.species, rows[0], chainRow);
  }

  /** `get_pokemon` raises NoRoot exactly when every species of the chain
      of the resolved pokemon evolves from another. */
  lemma ChainWithoutRoot(c: Corpus, ident: Identifier, form: Option<string>, language: int,
                         p: PokemonRow, chainRow: SpeciesRow)
    requires UniqueIds(c.species)
    requires Resolve(c, ident, form) == Ok(p)
    requires chainRow in c.species && chainRow.id == p.speciesId
    ensures GetPokemonSpec(c, ident, form, language) == Err(NoRoot) <==>
              forall row :: row in c.species && row.evolutionChainId == chainRow.evolutionChainId ==>
                              row.evolvesFromSpeciesId.Some?
  {
    var chain := Chain(c, chainRow.evolutionChainId);
    NoRootFromOrder(c, ident, form, language, p, chainRow);
    OrderShape(chain);
    assert forall row :: row in chain <==> row in c.species && row.evolutionChainId == chainRow.evolutionChainId;
  }

  lemma NoRootFromOrder(c: Corpus, ident: Identifier, form: Option<string>, language: int,
                        p: PokemonRow, chainRow: SpeciesRow)
    requires UniqueIds(c.species)
    requires Resolve(c, ident, form) == Ok(p)
    requires chainRow in c.species && chainRow.id == p.speciesId
    ensures GetPokemonSpec(c, ident, form, language) == Err(NoRoot) <==>
              EvolutionOrderSpec(Chain(c, chainRow.evolutionChainId)).Err?
  {
    SpeciesRowOf(c, p, chainRow);
  }

  /** The line of an order whose first id has a pokemon row starts with that id's entry. */
  lemma LineHead(c: Corpus, order: seq<int>, language: int)
    requires order != [] && HasPokemonRow(c)(order[0])
    ensures EvolutionLineSpec(c, order, language) != []
    ensures EntryFor(c, order[0], language) == Some(EvolutionLineSpec(c, order, language)[0])
  {
    EvolutionLineKeepsOrder(c, order, language);
    assert order == [order[0]] + order[1..];
    FilterAppend([order[0]], order[1..], HasPokemonRow(c));
    assert Filter([order[0]], HasPokemonRow(c)) == [order[0]] + Filter([], HasPokemonRow(c));
  }

  /** The evolution line starts with the chain's root whenever the root has a pokemon row. */
  lemma LineStartsAtRoot(c: Corpus, ident: Identifier, form: Option<string>, language: int,
                         p: PokemonRow, card: Card, chainRow: SpeciesRow)
    requires UniqueIds(c.species)
    requires Resolve(c, ident, form) == Ok(p)
    requires GetPokemonSpec(c, ident, form, language) == Ok(card)
    requires chainRow in c.species && chainRow.id == p.speciesId
    ensures var chain := Chain(c, chainRow.evolutionChainId);
            RootId(chain).Some?
            && (HasPokemonRow(c)(RootId(chain).value) ==>
                  card.evolutionLine != [] && EntryFor(c, RootId(chain).value, language) == Some(card.evolutionLine[0]))
  {
    var chain := Chain(c, chainRow.evolutionChainId);
    CardLine(c, ident, form, language, p, card, chainRow);
    OrderShape(chain);
    var order := EvolutionOrderSpec(chain).value;
    if HasPokemonRow(c)(order[0]) {
      LineHead(c, order, language);
    }
  }

  /** A card's evolution line is the line of its chain's order. */
  lemma CardLine(c: Corpus, ident: Identifier, form: Option<string>, language: int,
                 p: PokemonRow, card: Card, chainRow: SpeciesRow)
    requires UniqueIds(c.species)
    requires Resolve(c, ident, form) == Ok(p)
    requires GetPokemonSpec(c, ident, form, language) == Ok(card)
    requires chainRow in c.species && chainRow.id == p.speciesId
    ensures EvolutionOrderSpec(Chain(c, chainRow.evolutionChainId)).Ok?
    ensures card.evolutionLine == EvolutionLineSpec(c, EvolutionOrderSpec(Chain(c, chainRow.evolutionChainId)).value, language)
  {
    SpeciesRowOf(c, p, chainRow);
  }

  // ------------------------------------------------------------------ forms

  /** `get_available_forms`: the forms of the species the identifier resolves to. */
  function AvailableForms(c: Corpus, ident: Identifier): (r: Result<seq<string>, Error>)
    ensures r.Err? ==> r.error == NotFound || r.error == NoPokemonRow
  {
    var matches := SpeciesMatches(c, ident);
    if matches == [] then Err(NotFound)
    else
      var rows := Filter(c.pokemon, HasId(matches[0].id));
      if rows == [] then Err(NoPokemonRow) else Ok(FormsOf(c, rows[0].speciesId))
  }

  /** Listing the forms resolves exactly like `get_pokemon` without a form,
      and a card's forms are the forms listed for its identifier. */
  lemma AvailableFormsAgree(c: Corpus, ident: Identifier, language: int)
    requires UniqueIds(c.species)
    ensures AvailableForms(c, ident) == (match Resolve(c, ident, None)
                                         case Ok(p) => Ok(FormsOf(c, p.speciesId))
                                         case Err(e) => Err(e))
    ensures GetPokemonSpec(c, ident, None, language).Ok? ==>
              AvailableForms(c, ident) == Ok(GetPokemonSpec(c, ident, None, language).value.forms)
  {
  }

  // ----------------------------------------------------------------- flavor

  /** The pokemon rows `get_pokedex_flavor` matches: by pokemon id, or by
      pokemon identifier, case-insensitively. */
  function FlavorMatches(c: Corpus, ident: Identifier): seq<PokemonRow> {
    Filter(c.pokemon, PokemonMatcher(ident))
  }

  /** The flavor rows in the language, then those of the species: the rows
      matching both, in table order. */
  function FlavorOf(speciesId: int, language: int): FlavorTextRow -> bool {
    (row: FlavorTextRow) => row.languageId == language && row.speciesId == speciesId
  }

  function FlavorRows(c: Corpus, speciesId: int, language: int): seq<FlavorTextRow> {
    Filter(c.flavorTexts, FlavorOf(speciesId, language))
  }

  function FlavorInLanguage(language: int): FlavorTextRow -> bool {
    (row: FlavorTextRow) => row.languageId == language
  }

  function FlavorOfSpecies(speciesId: int): FlavorTextRow -> bool {
    (row: FlavorTextRow) => row.speciesId == speciesId
  }

  /** The two masks of the engine, the flavor rows in the language and then
      those of the species, select the rows `FlavorRows` holds. */
  lemma FlavorRowsTwoStep(c: Corpus, speciesId: int, language: int)
    ensures Filter(Filter(c.flavorTexts, FlavorInLanguage(language)), FlavorOfSpecies(speciesId))
            == FlavorRows(c, speciesId, language)
  {
    FilterFilter(c.flavorTexts, FlavorInLanguage(language), FlavorOfSpecies(speciesId), FlavorOf(speciesId, language));
  }

  function VersionIdColumn(): FlavorTextRow -> int {
    (row: FlavorTextRow) => row.versionId
  }

  function FlavorTextColumn(): FlavorTextRow -> string {
    (row: FlavorTextRow) => row.flavorText
  }

  function VersionIn(ids: seq<int>): VersionRow -> bool {
    (row: VersionRow) => row.id in ids
  }

  function VersionIdentifierColumn(): VersionRow -> string {
    (row: VersionRow) => row.identifier
  }

  /** The two lists of `get_pokedex_flavor`, built independently: every text
      of the flavor rows, and the versions-table rows whose id one of the
      flavor rows uses. */
  function FlavorFor(c: Corpus, speciesId: int, language: int): (r: Flavor)
    ensures |r.flavorTexts| == |FlavorRows(c, speciesId, language)|
    ensures |r.versions| <= |c.versions|
  {
    var rows := FlavorRows(c, speciesId, language);
    var ids := Map(rows, VersionIdColumn());
    Flavor(Map(Filter(c.versions, VersionIn(ids)), VersionIdentifierColumn()),
           Map(rows, FlavorTextColumn()))
  }

  /** Every text of the species in the language is listed, one per row;
      a version is listed exactly when one of those rows uses it. */
  lemma FlavorForMembers(c: Corpus, speciesId: int, language: int)
    ensures forall t :: t in FlavorFor(c, speciesId, language).flavorTexts <==>
              exists f :: f in c.flavorTexts && f.languageId == language
                          && f.speciesId == speciesId && f.flavorText == t
    ensures forall v :: v in FlavorFor(c, speciesId, language).versions <==>
              exists vr :: vr in c.versions && vr.identifier == v
                           && exists f :: f in c.flavorTexts && f.languageId == language
                                          && f.speciesId == speciesId && f.versionId == vr.id
  {
    var rows := FlavorRows(c, speciesId, language);
    var ids := Map(rows, VersionIdColumn());
    MapMembers(rows, FlavorTextColumn());
    MapMembers(rows, VersionIdColumn());
    MapMembers(Filter(c.versions, VersionIn(ids)), VersionIdentifierColumn());
  }

  /** The versions list follows the versions table: reordering the flavor rows
      does not change it. */
  lemma VersionsIgnoreRowOrder(c: Corpus, d: Corpus, speciesId: int, language: int)
    requires c.versions == d.versions
    requires forall f :: f in c.flavorTexts <==> f in d.flavorTexts
    ensures FlavorFor(c, speciesId, language).versions == FlavorFor(d, speciesId, language).versions
  {
    var ci := Map(FlavorRows(c, speciesId, language), VersionIdColumn());
    var di := Map(FlavorRows(d, speciesId, language), VersionIdColumn());
    MapMembers(FlavorRows(c, speciesId, language), VersionIdColumn());
    MapMembers(FlavorRows(d, speciesId, language), VersionIdColumn());
    FilterExtensional(c.versions, VersionIn(ci), VersionIn(di));
  }

  /** `get_pokedex_flavor`: NotFound only when no pokemon row matches; a
      pokemon without flavor rows gets two empty lists. */
  function PokedexFlavor(c: Corpus, ident: Identifier, language: int): (r: Result<Flavor, Error>)
    ensures r.Err? <==> forall row :: row in c.pokemon ==> !IdentMatch(ident, row.id, row.identifier)
    ensures r.Err? ==> r.error == NotFound
  {
    var matches := FlavorMatches(c, ident);
    if matches == [] then Err(NotFound)
    else
      var rows := Filter(c.pokemon, HasId(matches[0].id));
      assert matches[0] in rows;
      Ok(FlavorFor(c, rows[0].speciesId, language))
  }

  /** The flavor is that of the species of the first pokemon row carrying the
      id of the first pokemon row that answers to the identifier. */
  lemma PokedexFlavorOf(c: Corpus, ident: Identifier, language: int, m: PokemonRow, p: PokemonRow)
    requires IsFirst(c.pokemon, m, PokemonMatcher(ident))
    requires IsFirst(c.pokemon, p, HasId(m.id))
    ensures PokedexFlavor(c, ident, language) == Ok(FlavorFor(c, p.speciesId, language))
  {
    FilterEmpty(c.pokemon, PokemonMatcher(ident));
    FilterFirst(c.pokemon, PokemonMatcher(ident));
    FirstUnique(c.pokemon, m, FlavorMatches(c, ident)[0], PokemonMatcher(ident));
    FilterEmpty(c.pokemon, HasId(m.id));
    FilterFirst(c.pokemon, HasId(m.id));
    FirstUnique(c.pokemon, p, Filter(c.pokemon, HasId(m.id))[0], HasId(m.id));
  }

  /** One pokemon with two English texts from the same version. */
  function FlavorExample(): Corpus {
    Corpus([], [PokemonRow(1, "bulbasaur", 1)], [], [], [], [],
           [FlavorTextRow(1, 1, English, "A"), FlavorTextRow(1, 1, English, "B")],
           [VersionRow(1, "red")])
  }

  lemma FlavorExampleRows()
    ensures FlavorRows(FlavorExample(), 1, English) == FlavorExample().flavorTexts
  {
    var texts := FlavorExample().flavorTexts;
    assert texts[1..][1..] == [];
    assert Filter(texts[1..], FlavorOf(1, English)) == [texts[1]] + Filter(texts[1..][1..], FlavorOf(1, English));
  }

  lemma FlavorExampleLists()
    ensures FlavorFor(FlavorExample(), 1, English) == Flavor(["red"], ["A", "B"])
  {
    var c := FlavorExample();
    FlavorExampleRows();
    var ids := Map(c.flavorTexts, VersionIdColumn());
    assert ids == [1, 1];
    assert Filter(c.versions, VersionIn(ids)) == c.versions;
    assert Map(c.flavorTexts, FlavorTextColumn()) == ["A", "B"];
    assert Map(c.versions, VersionIdentifierColumn()) == ["red"];
  }

  /** The two lists need not line up: two texts from one version give one version. */
  lemma FlavorListsMayDiffer()
    ensures PokedexFlavor(FlavorExample(), NumberId(1), English) == Ok(Flavor(["red"], ["A", "B"]))
  {
    var c := FlavorExample();
    assert Filter(c.pokemon, PokemonMatcher(NumberId(1))) == c.pokemon;
    assert Filter(c.pokemon, HasId(1)) == c.pokemon;
    FlavorExampleLists();
  }
}
