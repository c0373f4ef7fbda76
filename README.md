# Pokédex engine and window, modelled in Dafny

The Pokédex answers questions about Pokémon from a fixed set of tables:

- pokemon species;
- pokemon, one row per concrete form;
- types;
- base stats;
- localized species names;
- flavor texts;
- game versions.

Its engine, `typed_function`, has three queries:

- `get_pokemon` resolves an identifier and an optional form to one pokemon row, and builds its card:
  - the localized or capitalized name, dex number and sprite path;
  - the cry list;
  - the types, joined with ", " and split again;
  - the six base stats;
  - the evolution line of its chain;
  - the forms of its species.
- `get_available_forms` lists the forms of the species an identifier names.
- `get_pokedex_flavor` lists the flavor texts of a pokemon's species in one language, together with the versions those texts come from.

The window, `PokedexWindow`, keeps the identifier being shown, the last card, a round-robin cry index, six stat labels and a form selector. The form selector is a combo box plus a cache that avoids rebuilding it. The window reacts to:

- the Load button;
- a change of the selected form;
- the Play Cry button.

The model has seven modules:

- `Tables` holds one datatype per table row and the `Corpus` of all tables. It also holds the errors a query raises: `NotFound`, `FormNotFound`, `NoPokemonRow`, `NoSpeciesRow`, `NoRoot` and `MissingStat`.
- `Seqs` holds row selection (`Filter`, the boolean mask of the engine) and column extraction (`Map`), with their laws.
- `Text` holds the string operations the engine and the window rely on, on ASCII:
  - lower-casing and capitalizing;
  - stripping white space;
  - decimal parsing and printing;
  - the ", " join and split.
- `Evolution` finds the root of a chain and performs the breadth-first walk, both as a method with a loop and as a specification function. It also proves what the resulting order is.
- `Pokedex` holds identifier resolution and the three queries. Each query is a function returning `Result<_, Error>`. The `get_pokemon` query also has a method built from the loops of the source and proved equal to that function.
- `Window` holds the `PokedexWindow` class. Its fields are the state the window keeps, and its methods are the event handlers and binders, each with its effect on every field.
- `Wrappers` holds `Option` and `Result`.

Every query uses language 9 (English), the default of the engine, as the window does.

## Model

| member | source | states |
|---|---|---|
| Text.Lower | pokedex/my_module.py:50 | Lower-casing keeps the length, maps each upper-case letter to its own lower-case letter, and changes nothing else; no upper-case letter is left |
| Text.LowerIdempotent | pokedex/my_module.py:50 | Lower-casing twice is lower-casing once |
| Text.Capitalize | pokedex/my_module.py:130 | Same length; the first character is not lower case; the rest is lower-cased; it lower-cases to the same string as its input |
| Text.Strip | pokedex/main_qt.py:194 | The result is a contiguous slice of the input with no white space at either end, and it is empty exactly when the input is all white space |
| Text.ParseDecimal | pokedex/my_module.py:46-47 | The text parses as a number exactly when it is a non-empty run of decimal digits |
| Text.ParseNatToString | pokedex/my_module.py:47 | Parsing the printed form of a natural number gives the number back |
| Text.IntToString | pokedex/my_module.py:136 | The printed form is non-empty, and it starts with a digit exactly when the number is not negative |
| Text.IntToStringInjective | pokedex/my_module.py:136-137 | Two integers with the same printed form are equal |
| Text.FindSep | pokedex/my_module.py:138 | Finds the first occurrence of ", ", and none exactly when the string holds none |
| Text.Split | pokedex/my_module.py:138 | Splitting always gives at least one piece |
| Text.Join | pokedex/my_module.py:69 | Joins the names with ", " between each two; `Text.SplitJoin` is its inverse |
| Text.SplitJoin | pokedex/my_module.py:138 | Joining a non-empty list of names (each possibly empty) that hold no ", " and splitting again gives the names back |
| Text.SplitJoinEmpty | pokedex/my_module.py:138 | Joining no names and splitting gives one empty name |
| Seqs.Filter | pokedex/my_module.py:48 | Selection keeps exactly the rows the predicate accepts and never grows the table |
| Seqs.FilterFirst | pokedex/my_module.py:63 | The first selected row is the first row of the table that the predicate accepts |
| Seqs.FilterFilter | pokedex/my_module.py:104-105 | Applying two masks one after the other selects what one mask accepting both selects |
| Seqs.Map | pokedex/my_module.py:68 | A column has one entry per row, each taken from its row |
| Seqs.MapMembers | pokedex/my_module.py:68 | A value is in a column exactly when some row yields it |
| Evolution.MinId | pokedex/my_module.py:77 | None exactly for no rows; otherwise the id of some row that no row's id is below |
| Evolution.RootId | pokedex/my_module.py:77 | None exactly when every species of the chain has a parent; otherwise the smallest id among the parentless species |
| Evolution.SortIds | pokedex/my_module.py:85 | Sorting distinct ids gives a strictly ascending list of the same ids |
| Evolution.ParentOfRow | pokedex/my_module.py:85 | With unique ids, the parent looked up for a row's id is the parent recorded on that row |
| Evolution.Children | pokedex/my_module.py:85 | The children list is strictly ascending and holds exactly the chain species whose parent is the given id |
| Evolution.FilterKeepsUniqueIds | pokedex/my_module.py:74 | Selecting rows keeps the ids unique |
| Evolution.WalkStep | pokedex/my_module.py:84-91 | Expanding the next discovered id keeps the walk invariant and strictly shrinks the set of chain species not yet expanded, so the walk ends |
| Evolution.Walk | pokedex/my_module.py:84-91 | The walk as a function: expand the discovered ids in order, appending each one's children, until none is left; `Evolution.WalkKeepsInv` and the order lemmas say what it yields |
| Evolution.EvolutionOrderSpec | pokedex/my_module.py:77-91 | NoRoot without a root, else the walk from the root; `Evolution.OrderShape` and `Evolution.OrderIsFifoExpansion` characterize it |
| Evolution.WalkKeepsInv | pokedex/my_module.py:84-91 | The finished walk still satisfies the invariant and keeps its first entry |
| Evolution.EvolutionOrder | pokedex/my_module.py:77-91 | The loop returns exactly the specified order: NoRoot when the chain has no parentless species, else the full walk from the root |
| Evolution.AppendEach | pokedex/my_module.py:89-90 | Appending the children one at a time appends the whole list |
| Evolution.OrderShape | pokedex/my_module.py:77-91 | The order fails exactly when there is no root. It starts at the root, lists no species twice and nothing outside the chain, and each later entry is a child of an earlier one |
| Evolution.OrderIsFifoExpansion | pokedex/my_module.py:84-91 | The order is its root followed by the ascending children lists of its own entries, in the order the entries were discovered (first-in first-out) |
| Evolution.DescendantInOrder | pokedex/my_module.py:84-91 | Every species that descends from the root is in the order |
| Evolution.OrderEntryDescends | pokedex/my_module.py:84-91 | Every entry of the order descends from the root |
| Evolution.SecondIsChildOfFirst | pokedex/my_module.py:85-90 | The second entry, when there is one, is a child of the root |
| Evolution.LoneRoot | pokedex/my_module.py:85-87 | A root without children gives an order holding the root alone |
| Pokedex.IdentMatch | pokedex/my_module.py:45-50 | A row answers to an identifier by id when the identifier is a number or decimal text, else by case-insensitive identifier; `Pokedex.ResolveErrors` and `Pokedex.DexAndNameAgree` use it |
| Pokedex.SelectedId | pokedex/my_module.py:58-63 | Only a form can fail, with FormNotFound; with a form, the id is that of a pokemon row whose lower-cased identifier is the form |
| Pokedex.Resolve | pokedex/my_module.py:45-64 | A resolved row is a row of the pokemon table; the only errors are NotFound, FormNotFound and NoPokemonRow |
| Pokedex.ResolveErrors | pokedex/my_module.py:45-61 | NotFound exactly when no species answers to the identifier. FormNotFound exactly when a form is given, a species answers, and no pokemon row of any species has the form as its lower-cased identifier |
| Pokedex.ResolveWithoutForm | pokedex/my_module.py:63-64 | Without a form, the result is the first pokemon row carrying the id of the first matching species, and NoPokemonRow exactly when no row carries it |
| Pokedex.ResolveWithForm | pokedex/my_module.py:58-64 | With a form that some row is named like, the result is the first pokemon row carrying the id of the first row so named |
| Pokedex.FormIgnoresSpecies | pokedex/my_module.py:58-61 | Any two identifiers that each name some species resolve a given form to the same result |
| Pokedex.UpperCaseFormNotFound | pokedex/my_module.py:59 | A form holding an upper-case letter never resolves |
| Pokedex.DexAndNameAgree | pokedex/my_module.py:45-50 | A species is found alike by its printed id and by its unique non-numeric name |
| Pokedex.TypeNames | pokedex/my_module.py:68-69 | A pokemon has no more type names than the types table has rows |
| Pokedex.TypeNamesMembers | pokedex/my_module.py:68-69 | A name is listed exactly when the types table gives it to a type id listed for the pokemon |
| Pokedex.TypesIgnoreSlotOrder | pokedex/my_module.py:69 | The type names depend only on the set of the pokemon's type ids, in types-table order |
| Pokedex.TypesField | pokedex/my_module.py:69 | The types field is never an empty list; `Pokedex.TypesFieldRoundTrip` says when it is the type names |
| Pokedex.TypesFieldRoundTrip | pokedex/my_module.py:138 | The join and split give the names back when there is at least one and none holds ", ". No types give one empty name |
| Pokedex.StatValue | pokedex/my_module.py:140-145 | Looking up a stat fails only with MissingStat of that stat |
| Pokedex.StatRowsTwoStep | pokedex/my_module.py:71 | The stat rows of the pokemon, then those of one stat among them, are the rows matching both |
| Pokedex.StatValueMeaning | pokedex/my_module.py:140-145 | A stat is missing exactly when no row gives it; otherwise it is the base stat of the first row for that pokemon and stat |
| Pokedex.BaseStatsOf | pokedex/my_module.py:139-146 | On success each of the six stats is the looked-up value; on failure the error names the first missing stat, and every earlier stat is present |
| Pokedex.LocalizedName | pokedex/my_module.py:124-128 | A localized name is the name of a species-names row of that species in that language |
| Pokedex.NameRowsTwoStep | pokedex/my_module.py:124-125 | The names of the species, then those in the language, are the rows matching both |
| Pokedex.DisplayName | pokedex/my_module.py:127-130 | The localized name when there is one, else a string of the identifier's length that lower-cases to the identifier's lower-casing |
| Pokedex.LocalizedNameMeaning | pokedex/my_module.py:124-128 | None exactly when the species has no name in the language; otherwise the name of the first row in that language |
| Pokedex.SpritePathInjective | pokedex/my_module.py:136 | Different pokemon ids give different sprite paths |
| Pokedex.CryPathInjective | pokedex/my_module.py:137 | Different pokemon ids give different cry paths |
| Pokedex.Chain | pokedex/my_module.py:73-74 | The species of one chain keep unique ids |
| Pokedex.EntryFor | pokedex/my_module.py:101-114 | The entry of one id of the order; `Pokedex.EntryForMeaning` states when there is one and what it holds |
| Pokedex.EntryForMeaning | pokedex/my_module.py:101-114 | An id gets an evolution-line entry exactly when a pokemon row carries it. The entry has the id's sprite path, the species of the first such row, and the localized name or else that row's raw identifier |
| Pokedex.EvolutionLineSpec | pokedex/my_module.py:100-114 | The line has no more entries than the order has ids |
| Pokedex.BuildEvolutionLine | pokedex/my_module.py:100-114 | The loop builds exactly the specified line |
| Pokedex.EvolutionLineKeepsOrder | pokedex/my_module.py:100-114 | The line has one entry per id with a pokemon row, in the order of the ids, and entry k describes the k-th such id |
| Pokedex.FormsOf | pokedex/my_module.py:121 | The identifiers of the species' pokemon rows, in table order; `Pokedex.FormsOfMembers` states its members and length |
| Pokedex.FormsOfMembers | pokedex/my_module.py:121 | A form is listed exactly when a pokemon row of the species carries that identifier, once per such row |
| Pokedex.GetPokemonSpec | pokedex/my_module.py:42-149 | What `get_pokemon` returns or raises, in the order it raises; `Pokedex.CardFields`, `Pokedex.CardContents` and `Pokedex.CardErrors` state its cards and errors |
| Pokedex.GetPokemon | pokedex/my_module.py:42-149 | The method returns exactly what the specification function states, error or card |
| Pokedex.CardFields | pokedex/my_module.py:133-149 | Each field of a card is the result of the query that fills it |
| Pokedex.CardContents | pokedex/my_module.py:133-149 | A card carries the species as dex number, the sprite and cry paths of the pokemon, the localized name or the capitalized identifier, the six looked-up stats and the species' forms. Its types are the type names (one empty name when there are none) whenever no name holds ", " |
| Pokedex.CardErrors | pokedex/my_module.py:73-145 | After resolution, NoSpeciesRow exactly when no species carries the pokemon's species id; any other error is NoRoot or a missing stat |
| Pokedex.ChainWithoutRoot | pokedex/my_module.py:77 | The query fails with NoRoot exactly when every species of the pokemon's chain has a parent |
| Pokedex.NoRootFromOrder | pokedex/my_module.py:73-77 | The query fails with NoRoot exactly when the chain's order fails |
| Pokedex.SpeciesRowOf | pokedex/my_module.py:73 | With unique ids, the first species row with the pokemon's species id is that species' row |
| Pokedex.CardLine | pokedex/my_module.py:95-114 | A card's evolution line is the line built from its chain's order |
| Pokedex.LineHead | pokedex/my_module.py:100-114 | When the first id of the order has a pokemon row, the line starts with its entry |
| Pokedex.LineStartsAtRoot | pokedex/my_module.py:77-114 | A card's chain has a root, and when the root has a pokemon row the card's evolution line starts with the root's entry |
| Pokedex.AvailableForms | pokedex/my_module.py:152-173 | Listing forms fails only with NotFound or NoPokemonRow |
| Pokedex.AvailableFormsAgree | pokedex/my_module.py:152-173 | Listing forms resolves exactly like `get_pokemon` without a form, and gives the forms of a successful card |
| Pokedex.FlavorFor | pokedex/my_module.py:199-210 | One text per flavor row of the species in the language; no more versions than the versions table has rows |
| Pokedex.FlavorRowsTwoStep | pokedex/my_module.py:199-200 | The flavor rows in the language, then those of the species, are the rows matching both |
| Pokedex.FlavorForMembers | pokedex/my_module.py:199-204 | A text is listed exactly when a flavor row of the species in the language has it. A version is listed exactly when such a row uses its id |
| Pokedex.VersionsIgnoreRowOrder | pokedex/my_module.py:203 | The versions list follows the versions table: reordering the flavor rows does not change it |
| Pokedex.PokedexFlavor | pokedex/my_module.py:177-191 | The query fails, always with NotFound, exactly when no pokemon row answers to the identifier by id or by name |
| Pokedex.PokedexFlavorOf | pokedex/my_module.py:180-210 | The flavor is that of the species of the first pokemon row carrying the id of the first matching row |
| Pokedex.FlavorListsMayDiffer | pokedex/my_module.py:203-204 | Two texts from one version give two texts but one version: the lists need not line up |
| Window.StatsDict | pokedex/my_module.py:139-146 | The card's stats dictionary maps the k-th stat key to the k-th base stat |
| Window.StatLabel | pokedex/main_qt.py:280 | A label shows the key's value when it is non-zero, else the lower-cased key's value when that is non-zero, else the dash, which it shows exactly when neither applies |
| Window.StatLabels | pokedex/main_qt.py:279-281 | Six labels, the k-th bound to the k-th stat key |
| Window.LowerKeysAbsent | pokedex/main_qt.py:280 | The lower-cased fallback key never occurs in a card's stats |
| Window.CardStatLabels | pokedex/main_qt.py:277-281 | For a card, a label shows the dash exactly for a zero stat. Otherwise it shows the stat printed, and different non-zero stats show differently |
| Window.NormalizeForms | pokedex/main_qt.py:336 | Normalizing never adds forms; `Window.NormalizeFormsMembers` and `Window.NormalizeFormsKeepsOrder` state which forms it keeps and in what order |
| Window.NormalizeFormsMembers | pokedex/main_qt.py:336 | A form is offered exactly when it is non-blank and not the base name; the base name is never offered twice |
| Window.NormalizeFormsIdempotent | pokedex/main_qt.py:336 | Normalizing twice changes nothing |
| Window.NormalizeFormsKeepsOrder | pokedex/main_qt.py:336 | Normalizing keeps the input order across concatenation |
| Window.FindText | pokedex/main_qt.py:351 | Finds the first item with the text, and none exactly when no item has it |
| Window.SelectText | pokedex/main_qt.py:349-351 | Selecting a text that is present picks an item with that text; an absent text keeps the selection |
| Window.ComboItems | pokedex/main_qt.py:361-364 | The rebuilt items are the base name followed by the forms |
| Window.CryAt | pokedex/main_qt.py:382 | The cry played is one of the card's cries |
| Window.CryCycle | pokedex/main_qt.py:382-383 | A full round of clicks comes back to the same cry, and the first round plays the cries in order |
| Window.PokedexWindow.constructor | pokedex/main_qt.py:84-188 | Nothing is shown: no identifier, no card, empty and disabled selector, disabled cry button, dashes in every stat label, cry index 0 |
| Window.PokedexWindow.OnLoadClicked | pokedex/main_qt.py:192-199 | Blank input changes nothing; otherwise the stripped text becomes the identifier and is loaded without a form |
| Window.PokedexWindow.OnFormChanged | pokedex/main_qt.py:201-210 | Without an identifier nothing changes; the base name reloads without a form, any other text loads that form |
| Window.PokedexWindow.LoadPokemonData | pokedex/main_qt.py:213-240 | A query error leaves every field as it was. A card is kept; the stat labels and form selector are bound to it; the cry button follows its cries and the cry index restarts |
| Window.PokedexWindow.BindCard | pokedex/main_qt.py:227-237 | The binding steps leave the window bound to the card, with the identifier unchanged |
| Window.PokedexWindow.BindStats | pokedex/main_qt.py:277-281 | The labels become the six labels of the stats; nothing else changes |
| Window.PokedexWindow.BindForms | pokedex/main_qt.py:321-372 | The cache holds the identifier and the normalized forms. The items are reused on a cache hit with a non-empty combo, else rebuilt as base name plus forms. The base name is selected whenever it is an item; the selector is enabled |
| Window.PokedexWindow.OnPlayCryClicked | pokedex/main_qt.py:377-384 | Without cries nothing happens. Otherwise the cry at the index (round-robin) is played and the index advances by one |

## Quirks of the code the model keeps

- `str.capitalize` lower-cases everything after the first character, so a fallback name is not only "first letter upper-cased" (pokedex/my_module.py:130).
- The flavor lists are never truncated to a common length (pokedex/my_module.py:203-204). The versions come from the versions table, in its order and once each, while there is one text per flavor row, so the two lists can differ in length (`Pokedex.FlavorListsMayDiffer`).
- Among several parentless species of a chain, the root is the one with the smallest id (pokedex/my_module.py:77).
- A requested form is looked up among the pokemon rows of every species, not only those of the resolved species (pokedex/my_module.py:58-61, `Pokedex.FormIgnoresSpecies`). The form is compared as given with lower-cased identifiers (`Pokedex.UpperCaseFormNotFound`).
- The card has no "form" entry (pokedex/my_module.py:133-149), so the form binder always asks for the base name (pokedex/main_qt.py:347-351 and 368-370). After a rebuild the base name is the first item and is selected. On a cache hit the items are reused as they are; when they do not hold the new base name, the selection stays where it was. This happens after choosing a form of a species without a name in the language: the capitalized name of the form then differs from the base name the items were built with, while the forms are unchanged (`Window.PokedexWindow.BindForms`).
- A card's "forms" list is never missing, so the form binder never falls back to `get_available_forms` (pokedex/main_qt.py:328-333).

## Left out

- Reading the tables from files, and the columns no query reads, are not modelled. The tables are a `Corpus` value; the stats, languages, forms and evolution tables are not read by the modelled queries.
- `ParseDecimal` accepts digits only. Python's `int()` also accepts surrounding white space, a sign and underscores; such text is matched as a name here.
- `Text.Lower`, `Text.Capitalize` and `Text.Strip` cover ASCII only: no Unicode case mapping and no Unicode white space.
- `Pokedex.GetPokemon` and the other `get_pokemon` members require unique species ids, the primary key of the species table. With duplicate ids the breadth-first walk need not terminate, and the reindexing by id is no longer the identity on the order.
- `EvolutionOrder` treats the reindexing of the chain by the order as the identity. With unique ids, the reindexed id column is the order itself.
- Error messages are not modelled; an error is its kind only.
- `_bind_header`, `_bind_types` and `_bind_evolution_line` only render widgets, and no window state depends on them, so they are not modelled. The same goes for pixmap loading, audio playback (`_play_audio`) and message boxes.
- The fallback to calling the engine object directly, and the check that the result is a dictionary, are not modelled. `get_pokemon` always exists and always returns a card or raises.
- Qt signals are not modelled; in particular, the form selector's text-changed signal firing during a rebuild is left out, since the rebuild blocks signals. A user's selection in the combo box appears only as a call to `OnFormChanged`.
- `Window.PokedexWindow.LoadPokemonData` assumes that only the query raises. Nothing in the binding steps of the model can fail, so partial binding after an exception is not represented.
- The widget state is reduced to the fields the handlers read back: combo items, selected index, enabled flags and label texts. Layout, sizes and styles are left out.
- The other files of the repository are not part of this model: the NiceGUI front end (pokedex/main_nicegui.py), the template copies under cookiecutter_output/, numpy/my_module.py and the documentation configuration.
