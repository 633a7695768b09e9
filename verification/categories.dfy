/** The category strip of the home screen: seven fixed labels and the selection
    a press toggles. The selection is a list used as a set. */
module Categories {
  import opened Seqs

  /** The labels the strip shows, in display order. */
  const Labels: seq<string> := ["starters", "mains", "desserts", "drinks", "specials", "salads", "soups"]

  /** A position in the strip; a press can only name one of these. */
  type LabelIndex = i: nat | i < 7

  lemma LabelsDistinct()
    ensures |Labels| == 7 && NoDup(Labels)
  {
  }

  /** The filter callback `item => item !== category`. */
  function Other(category: string): string -> bool {
    (item: string) => item != category
  }

  /** `toggleCategory`: a selected category is filtered out of the selection; an
      unselected one is appended at the end. */
  function Toggle(selected: seq<string>, category: string): (r: seq<string>)
    ensures category in r <==> category !in selected
    ensures forall x | x != category :: x in r <==> x in selected
    ensures category !in selected ==> r == selected + [category]
    ensures NoDup(selected) ==> NoDup(r)
  {
    if category in selected then
      var r := Filter(selected, Other(category));
      FilterMembers(selected, Other(category));
      assert NoDup(selected) ==> NoDup(r) by {
        if NoDup(selected) {
          FilterNoDup(selected, Other(category));
        }
      }
      r
    else
      assert NoDup(selected) ==> NoDup(selected + [category]);
      selected + [category]
  }

  /** Removing a selected category keeps the other selected categories in their
      original order: the result is the selection with that one entry cut out. */
  lemma ToggleSelectedRemoves(selected: seq<string>, category: string, i: nat)
    requires NoDup(selected)
    requires i < |selected| && selected[i] == category
    ensures Toggle(selected, category) == selected[..i] + selected[i + 1..]
  {
    assert Toggle(selected, category) == Filter(selected, Other(category));
    KeepsOthers(selected, i);
    FilterDropsOne(selected, Other(category), i);
  }

  /** In a selection without duplicates, every entry but the `i`th differs from it. */
  lemma KeepsOthers(selected: seq<string>, i: nat)
    requires NoDup(selected) && i < |selected|
    ensures forall j | 0 <= j < |selected| && j != i :: Other(selected[i])(selected[j])
  {
  }

  /** Toggling the same category twice restores the set of selected categories;
      when it was not selected to begin with, the very same list comes back. */
  lemma ToggleTwice(selected: seq<string>, category: string)
    ensures forall x :: x in Toggle(Toggle(selected, category), category) <==> x in selected
    ensures category !in selected ==> Toggle(Toggle(selected, category), category) == selected
  {
    if category !in selected {
      var keep := Other(category);
      FilterAppend(selected, [category], keep);
      assert forall j | 0 <= j < |selected| :: keep(selected[j]);
      FilterKeepsAll(selected, keep);
      assert Filter([category], keep) == [];
    }
  }

  /** A press on the strip: `onPress` toggles the label the pressed item shows.
      The labels are distinct, so a press leaves every other label as it was. */
  function Press(selected: seq<string>, k: LabelIndex): (r: seq<string>)
    ensures Labels[k] in r <==> Labels[k] !in selected
    ensures forall j: LabelIndex | j != k :: Labels[j] in r <==> Labels[j] in selected
    ensures (forall x | x in selected :: x in Labels) ==> forall y | y in r :: y in Labels
    ensures NoDup(selected) ==> NoDup(r)
  {
    LabelsDistinct();
    Toggle(selected, Labels[k])
  }

  /** The selection after a run of presses, starting from the empty selection:
      it never repeats a category and holds only labels of the strip, so it holds
      at most seven. */
  function SelectionAfter(presses: seq<LabelIndex>): (selected: seq<string>)
    ensures NoDup(selected)
    ensures forall x | x in selected :: x in Labels
    ensures |selected| <= |Labels|
  {
    if |presses| == 0 then []
    else
      var r := Press(SelectionAfter(presses[..|presses| - 1]), presses[|presses| - 1]);
      NoDupWithin(r, Labels);
      r
  }
}
