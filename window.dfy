/** The Pokédex window with its widgets reduced to the state they hold: the
    identifier being shown, the last card, the round-robin cry index, the six
    stat labels, and the form selector (its items, the selected index, and the
    cache that avoids rebuilding it). Every query goes to the engine in
    `Pokedex` with the English language id. */
module Window {
  import opened Wrappers
  import opened Text
  import opened Seqs
  import opened Tables
  import opened Pokedex

  // ------------------------------------------------------------ stat labels

  /** The keys of the stat labels, top to bottom. */
  const StatKeys: seq<string> := ["HP", "Atk", "Def", "SpA", "SpD", "Spe"]

  const Dash := "—"

  /** The "base_stats" dictionary of a card: only the upper-case keys. */
  function StatsDict(stats: BaseStats): (r: map<string, int>)
    ensures forall k :: 0 <= k < |StatKeys| ==> StatKeys[k] in r && r[StatKeys[k]] == StatOf(stats, k + 1)
  {
    map["HP" := stats.hp, "Atk" := stats.attack, "Def" := stats.defense,
        "SpA" := stats.spAttack, "SpD" := stats.spDefense, "Spe" := stats.speed]
  }

  /** The key's value, else the lower-cased key's value, else a dash; a missing key and a
      zero value are both falsy. */
  function StatLabel(stats: map<string, int>, key: string): (r: string)
    ensures r == Dash <==> (key !in stats || stats[key] == 0)
                           && (Lower(key) !in stats || stats[Lower(key)] == 0)
    ensures key in stats && stats[key] != 0 ==> r == IntToString(stats[key])
    ensures !(key in stats && stats[key] != 0) && Lower(key) in stats && stats[Lower(key)] != 0 ==>
              r == IntToString(stats[Lower(key)])
  {
    if key in stats && stats[key] != 0 then IntToString(stats[key])
    else if Lower(key) in stats && stats[Lower(key)] != 0 then IntToString(stats[Lower(key)])
    else Dash
  }

  /** The six labels the window shows for a stats dictionary. */
  function StatLabels(stats: map<string, int>): (r: seq<string>)
    ensures |r| == |StatKeys|
    ensures forall k :: 0 <= k < |StatKeys| ==> r[k] == StatLabel(stats, StatKeys[k])
  {
    seq(|StatKeys|, k requires 0 <= k < |StatKeys| => StatLabel(stats, StatKeys[k]))
  }

  /** The lower-case fallback never finds anything in a card's dictionary. */
  lemma LowerKeysAbsent(stats: BaseStats, key: string)
    requires key in StatKeys
    ensures Lower(key) !in StatsDict(stats)
  {
    assert |key| > 0 && IsUpper(key[0]);
    assert !IsUpper(Lower(key)[0]);
    assert StatsDict(stats).Keys == {"HP", "Atk", "Def", "SpA", "SpD", "Spe"};
    assert "HP"[0] == 'H' && "Atk"[0] == 'A' && "Def"[0] == 'D' && "SpA"[0] == 'S' && "SpD"[0] == 'S' && "Spe"[0] == 'S';
  }

  /** For a card, each label shows its stat, with "—" exactly for a zero stat,
      and different non-zero stats show differently. */
  lemma CardStatLabels(stats: BaseStats, k: nat, other: int)
    requires k < |StatKeys|
    ensures StatLabels(StatsDict(stats))[k] == Dash <==> StatOf(stats, k + 1) == 0
    ensures StatOf(stats, k + 1) != 0 ==>
              StatLabels(StatsDict(stats))[k] == IntToString(StatOf(stats, k + 1))
    ensures StatOf(stats, k + 1) != 0 && other != 0 && StatLabels(StatsDict(stats))[k] == IntToString(other) ==>
              other == StatOf(stats, k + 1)
  {
    var m := StatsDict(stats);
    LowerKeysAbsent(stats, StatKeys[k]);
    if StatOf(stats, k + 1) != 0 && other != 0 && StatLabels(m)[k] == IntToString(other) {
      IntToStringInjective(other, StatOf(stats, k + 1));
    }
  }

  // ------------------------------------------------------------------ forms

  function KeepForm(baseName: string): string -> bool {
    (f: string) => Strip(f) != [] && f != baseName
  }

  /** The forms offered besides the base name: non-blank, not the base name,
      in the given order. */
  function NormalizeForms(forms: seq<string>, baseName: string): (r: seq<string>)
    ensures |r| <= |forms|
  {
    Filter(forms, KeepForm(baseName))
  }

  /** A form is kept exactly when it is non-blank and not the base name. */
  lemma NormalizeFormsMembers(forms: seq<string>, baseName: string)
    ensures forall f :: f in NormalizeForms(forms, baseName) <==> f in forms && Strip(f) != [] && f != baseName
    ensures baseName !in NormalizeForms(forms, baseName)
  {
  }

  /** Normalizing twice changes nothing. */
  lemma NormalizeFormsIdempotent(forms: seq<string>, baseName: string)
    ensures NormalizeForms(NormalizeForms(forms, baseName), baseName) == NormalizeForms(forms, baseName)
  {
    FilterIdempotent(forms, KeepForm(baseName));
  }

  /** Normalizing keeps the input order: the forms of a concatenation are the
      forms of each part, one after the other. */
  lemma NormalizeFormsKeepsOrder(a: seq<string>, b: seq<string>, baseName: string)
    ensures NormalizeForms(a + b, baseName) == NormalizeForms(a, baseName) + NormalizeForms(b, baseName)
  {
    FilterAppend(a, b, KeepForm(baseName));
  }

  /** `findText`: the first index of an item equal to `text`. */
  function FindText(items: seq<string>, text: string): (r: Option<nat>)
    ensures r.None? <==> text !in items
    ensures r.Some? ==> r.value < |items| && items[r.value] == text
                        && forall j :: 0 <= j < r.value ==> items[j] != text
  {
    if items == [] then None
    else if items[0] == text then Some(0)
    else match FindText(items[1..], text)
         case None => None
         case Some(i) => Some(i + 1)
  }

  /** The text of a selected index, "" when nothing is selected. */
  function TextAt(items: seq<string>, index: int): string {
    if 0 <= index < |items| then items[index] else ""
  }

  /** `setCurrentText` on a non-editable combo box: select the first item with
      that text if there is one, otherwise keep the selection. */
  function SelectText(items: seq<string>, index: int, text: string): (r: int)
    ensures text in items ==> 0 <= r < |items| && items[r] == text
    ensures text !in items ==> r == index
  {
    match FindText(items, text)
    case Some(i) => i
    case None => index
  }

  // ------------------------------------------------------------------ cries

  /** The cry played by the click with index `i`: round-robin over the list. */
  function CryAt(cries: seq<string>, i: nat): (r: string)
    requires cries != []
    ensures r in cries
  {
    cries[i % |cries|]
  }

  /** A full round of clicks comes back to the same cry; consecutive clicks
      play consecutive cries. */
  lemma CryCycle(cries: seq<string>, i: nat)
    requires cries != []
    ensures CryAt(cries, i + |cries|) == CryAt(cries, i)
    ensures i < |cries| ==> CryAt(cries, i) == cries[i]
  {
    var n := |cries|;
    var d := (i + n) / n - i / n - 1;
    assert d * n == i % n - (i + n) % n by {
      assert i + n == ((i + n) / n) * n + (i + n) % n;
      assert i == (i / n) * n + i % n;
      assert d * n == ((i + n) / n) * n - (i / n) * n - n;
    }
    MulSign(d, n);
    MulSign(i / n, n);
  }

  lemma MulSign(d: int, n: int)
    requires n > 0
    ensures d >= 1 ==> d * n >= n
    ensures d <= -1 ==> d * n <= -n
  {
    if d >= 1 {
      assert d * n == (d - 1) * n + n;
      assert (d - 1) * n >= 0;
    } else if d <= -1 {
      assert d * n == (d + 1) * n - n;
      assert (d + 1) * n <= 0;
    }
  }

  // ----------------------------------------------------------------- window

  /** The items of a rebuilt combo box: the base name, then each form. */
  method ComboItems(baseName: string, forms: seq<string>) returns (items: seq<string>)
    ensures items == [baseName] + forms
  {
    items := [baseName];
    for i := 0 to |forms|
      invariant items == [baseName] + forms[..i]
    {
      items := items + [forms[i]];
    }
    assert forms[..|forms|] == forms;
  }

  /** The state of the form selector that binding a card depends on. */
  datatype FormSelector = FormSelector(cacheIdentifier: Option<string>, cacheList: Option<seq<string>>,
                                       items: seq<string>, index: int)

  class PokedexWindow {
    const corpus: Corpus
    var currentIdentifier: Option<string>
    /** The last card loaded; None stands for the initial empty dictionary. */
    var currentData: Option<Card>
    var currentCryIndex: nat
    var formsCacheIdentifier: Option<string>
    var formsCacheList: Option<seq<string>>
    var baseFormName: string
    var comboItems: seq<string>
    /** The selected item; -1 when the combo box is empty. */
    var comboIndex: int
    var comboEnabled: bool
    var cryEnabled: bool
    /** The texts of the six stat labels, in the order of `StatKeys`. */
    var statLabels: seq<string>

    ghost predicate Valid()
      reads this
    {
      && WidgetsValid()
      && (cryEnabled <==> currentData.Some? && currentData.value.cries != [])
    }

    /** What holds of the widgets throughout a load, before the cry button
        has been brought in line with the new card. */
    ghost predicate WidgetsValid()
      reads this
    {
      && UniqueIds(corpus.species)
      && |statLabels| == |StatKeys|
      && -1 <= comboIndex < |comboItems|
      && (comboItems != [] ==> 0 <= comboIndex)
      && (formsCacheIdentifier.Some? <==> formsCacheList.Some?)
      && (formsCacheList.Some? ==> comboItems != [] && comboItems[1..] == formsCacheList.value)
      && (currentIdentifier.Some? ==> currentIdentifier.value != [])
    }

    constructor (corpus: Corpus)
      requires UniqueIds(corpus.species)
      ensures Valid()
      ensures this.corpus == corpus
      ensures currentIdentifier.None? && currentData.None? && currentCryIndex == 0
      ensures formsCacheIdentifier.None? && formsCacheList.None? && baseFormName == ""
      ensures comboItems == [] && comboIndex == -1 && !comboEnabled && !cryEnabled
      ensures statLabels == seq(|StatKeys|, _ => Dash)
    {
      this.corpus := corpus;
      currentIdentifier := None;
      currentData := None;
      currentCryIndex := 0;
      formsCacheIdentifier := None;
      formsCacheList := None;
      baseFormName := "";
      comboItems := [];
      comboIndex := -1;
      comboEnabled := false;
      cryEnabled := false;
      statLabels := seq(|StatKeys|, _ => Dash);
    }

    /** The fields of the form selector are as they were. */
    twostate predicate KeepsFormState()
      reads this
    {
      && baseFormName == old(baseFormName) && formsCacheIdentifier == old(formsCacheIdentifier)
      && formsCacheList == old(formsCacheList) && comboItems == old(comboItems)
      && comboIndex == old(comboIndex) && comboEnabled == old(comboEnabled)
    }

    /** The fields a load sets, besides the form selector, are as they were. */
    twostate predicate KeepsLoadState()
      reads this
    {
      && currentIdentifier == old(currentIdentifier) && currentData == old(currentData)
      && currentCryIndex == old(currentCryIndex) && cryEnabled == old(cryEnabled)
      && statLabels == old(statLabels)
    }

    /** The cache and the combo box, as a load finds them. */
    function Selector(): FormSelector
      reads this
    {
      FormSelector(formsCacheIdentifier, formsCacheList, comboItems, comboIndex)
    }

    /** The form selector after binding a card loaded for `identifier`, when
        it was `before`: the cache holds the identifier and the normalized
        forms, the items are the base name followed by those forms (rebuilt
        unless the cache already held them and the combo was not empty), and
        the base name is selected whenever it is among the items. */
    predicate FormsBound(identifier: string, card: Card, before: FormSelector)
      reads this
    {
      var forms := NormalizeForms(card.forms, card.name);
      var hit := before.cacheIdentifier == Some(identifier) && before.cacheList == Some(forms)
                 && before.items != [];
      && baseFormName == card.name
      && formsCacheIdentifier == Some(identifier)
      && formsCacheList == Some(forms)
      && (hit ==> comboItems == before.items)
      && (!hit ==> comboItems == [card.name] + forms && comboIndex == 0)
      && comboEnabled
      && (card.name in comboItems ==> 0 <= comboIndex < |comboItems| && comboItems[comboIndex] == card.name)
      && (card.name !in comboItems ==> comboIndex == before.index)
    }

    /** What a load leaves behind: nothing changes when the query raises;
        otherwise the card is kept, the labels and the form selector are bound
        to it, the cry button follows its cries and the cry index restarts. */
    twostate predicate LoadResult(identifier: string, form: Option<string>)
      requires UniqueIds(corpus.species)
      reads this
    {
      match GetPokemonSpec(corpus, TextId(identifier), form, English)
      case Err(_) =>
        && currentData == old(currentData) && currentCryIndex == old(currentCryIndex)
        && cryEnabled == old(cryEnabled) && statLabels == old(statLabels)
        && KeepsFormState()
      case Ok(card) => CardBound(identifier, card)
    }

    /** The window after binding a card loaded for `identifier`. */
    twostate predicate CardBound(identifier: string, card: Card)
      reads this
    {
      && currentData == Some(card) && currentCryIndex == 0
      && cryEnabled == (card.cries != [])
      && statLabels == StatLabels(StatsDict(card.baseStats))
      && FormsBound(identifier, card, old(Selector()))
    }

    /** The Load button: a blank input changes nothing; otherwise the stripped
        text becomes the current identifier and is loaded without a form. */
    method OnLoadClicked(text: string)
      requires Valid()
      modifies this
      ensures Valid()
      ensures Strip(text) == [] ==> unchanged(this)
      ensures Strip(text) != [] ==> currentIdentifier == Some(Strip(text)) && LoadResult(Strip(text), None)
    {
      var ident := Strip(text);
      if ident == [] {
        return;
      }
      currentIdentifier := Some(ident);
      LoadPokemonData(ident, None);
    }

    /** The form selector's text changed: nothing without a current identifier;
        the base name reloads without a form, any other text as the form. */
    method OnFormChanged(formText: string)
      requires Valid()
      modifies this
      ensures Valid()
      ensures currentIdentifier == old(currentIdentifier)
      ensures old(currentIdentifier).None? ==> unchanged(this)
      ensures old(currentIdentifier).Some? ==>
                LoadResult(old(currentIdentifier).value,
                           if formText == old(baseFormName) then None else Some(formText))
    {
      if currentIdentifier.None? || currentIdentifier.value == [] {
        return;
      }
      if formText == baseFormName {
        LoadPokemonData(currentIdentifier.value, None);
      } else {
        LoadPokemonData(currentIdentifier.value, Some(formText));
      }
    }

    /** Query the engine and bind the card; a raised error changes nothing. */
    method LoadPokemonData(identifier: string, form: Option<string>)
      requires Valid()
      modifies this
      ensures Valid()
      ensures currentIdentifier == old(currentIdentifier)
      ensures LoadResult(identifier, form)
    {
      var data := GetPokemon(corpus, TextId(identifier), form, English);
      if data.Err? {
        return;
      }
      BindCard(identifier, data.value);
    }

    /** The binding half of a load: keep the card, bind the labels and the
        form selector to it, enable the cry button when it has cries and
        restart the cry index. */
    method BindCard(identifier: string, card: Card)
      requires Valid()
      modifies this
      ensures Valid()
      ensures currentIdentifier == old(currentIdentifier)
      ensures CardBound(identifier, card)
    {
      ghost var before := Selector();
      currentData := Some(card);
      BindStats(StatsDict(card.baseStats));
      assert Selector() == before;
      BindForms(identifier, card);
      cryEnabled := card.cries != [];
      currentCryIndex := 0;
    }

    /** Set each stat label from the stats dictionary. */
    method BindStats(stats: map<string, int>)
      requires WidgetsValid()
      modifies this
      ensures WidgetsValid()
      ensures statLabels == StatLabels(stats)
      ensures currentIdentifier == old(currentIdentifier) && currentData == old(currentData)
      ensures currentCryIndex == old(currentCryIndex) && cryEnabled == old(cryEnabled)
      ensures KeepsFormState()
    {
      var labels := statLabels;
      for k := 0 to |StatKeys|
        invariant |labels| == |StatKeys|
        invariant forall j :: 0 <= j < k ==> labels[j] == StatLabel(stats, StatKeys[j])
      {
        labels := labels[k := StatLabel(stats, StatKeys[k])];
      }
      statLabels := labels;
    }

    /** Fill the form selector with the base name and the other forms of a
        card, reusing the items when the cache already holds them. The widget
        state is gathered in locals and stored at the end. */
    method BindForms(identifier: string, card: Card)
      requires WidgetsValid()
      modifies this
      ensures WidgetsValid()
      ensures FormsBound(identifier, card, old(Selector()))
      ensures KeepsLoadState()
    {
      var baseName := card.name;
      var forms := NormalizeForms(card.forms, baseName);
      var hit := formsCacheIdentifier == Some(identifier) && formsCacheList == Some(forms) && |comboItems| > 0;
      var items := comboItems;
      var index := comboIndex;
      if !hit {
        // Clear, add the base name and each form; the first item added to an
        // empty combo box becomes the selection.
        items := ComboItems(baseName, forms);
        index := 0;
      }
      // The card has no "form" entry, so the wanted text is the base name.
      if TextAt(items, index) != baseName {
        index := SelectText(items, index, baseName);
      }
      assert items != [] && items[1..] == forms && -1 <= index < |items|;
      assert baseName in items ==> 0 <= index < |items| && items[index] == baseName;
      baseFormName, formsCacheIdentifier, formsCacheList, comboItems, comboIndex, comboEnabled :=
        baseName, Some(identifier), Some(forms), items, index, true;
    }

    /** Play the next cry of the current card, if it has any. */
    method OnPlayCryClicked() returns (played: Option<string>)
      requires Valid()
      modifies this
      ensures Valid()
      ensures var cries := if old(currentData).Some? then old(currentData).value.cries else [];
              && (cries == [] ==> played.None? && unchanged(this))
              && (cries != [] ==> played == Some(CryAt(cries, old(currentCryIndex)))
                                  && currentCryIndex == old(currentCryIndex) + 1)
      ensures currentIdentifier == old(currentIdentifier) && currentData == old(currentData)
      ensures cryEnabled == old(cryEnabled) && statLabels == old(statLabels)
      ensures KeepsFormState()
    {
      var cries := if currentData.Some? then currentData.value.cries else [];
      if cries == [] {
        return None;
      }
      played := Some(cries[currentCryIndex % |cries|]);
      currentCryIndex := currentCryIndex + 1;
    }
  }
}
