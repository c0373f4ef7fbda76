/** The read-only tables of the Pokédex corpus, one datatype per row kind with
    the columns the engine reads, and the errors a query raises. */
module Tables {
  import opened Wrappers

  /** pokemon_species.csv; `evolvesFromSpeciesId` is None where the cell is empty (NaN). */
  datatype SpeciesRow = SpeciesRow(id: int, identifier: string, evolutionChainId: int,
                                   evolvesFromSpeciesId: Option<int>)

  /** pokemon.csv: one row per concrete form; the default form's id equals its species id. */
  datatype PokemonRow = PokemonRow(id: int, identifier: string, speciesId: int)

  /** pokemon_types.csv (the slot column is never read). */
  datatype PokemonTypeRow = PokemonTypeRow(pokemonId: int, typeId: int)

  /** types.csv */
  datatype TypeRow = TypeRow(id: int, identifier: string)

  /** pokemon_stats.csv */
  datatype PokemonStatRow = PokemonStatRow(pokemonId: int, statId: int, baseStat: int)

  /** pokemon_species_names.csv */
  datatype SpeciesNameRow = SpeciesNameRow(speciesId: int, localLanguageId: int, name: string)

  /** pokemon_species_flavor_text.csv */
  datatype FlavorTextRow = FlavorTextRow(speciesId: int, versionId: int, languageId: int,
                                         flavorText: string)

  /** versions.csv */
  datatype VersionRow = VersionRow(id: int, identifier: string)

  /** Every table the queries read, each in file order. */
  datatype Corpus = Corpus(
    species: seq<SpeciesRow>,
    pokemon: seq<PokemonRow>,
    pokemonTypes: seq<PokemonTypeRow>,
    types: seq<TypeRow>,
    pokemonStats: seq<PokemonStatRow>,
    speciesNames: seq<SpeciesNameRow>,
    flavorTexts: seq<FlavorTextRow>,
    versions: seq<VersionRow>)

  /** What a query raises. The messages are not modelled. */
  datatype Error =
    | NotFound        // "Pokémon '…' not found"
    | FormNotFound    // "Pokémon '…' with form '…' not found"
    | NoPokemonRow    // first row of an empty pokemon selection
    | NoSpeciesRow    // first row of an empty species selection
    | NoRoot          // first parentless species of a chain that has none
    | MissingStat(statId: int)  // first value of a missing base stat

  /** No two species rows share an id (the primary key of pokemon_species.csv). */
  predicate UniqueIds(rows: seq<SpeciesRow>) {
    forall i, j :: 0 <= i < j < |rows| ==> rows[i].id != rows[j].id
  }
}
