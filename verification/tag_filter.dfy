/** The tag bar of a project view: clicking a tag toggles it in the selection; "clear" empties it. */
module TagFilter {
  import Seqs
  import TagStore

  /** `handleTagClick`: a selected tag is dropped wherever it occurs, any other tag is appended. */
  function Toggle(selected: seq<string>, tag: string): (r: seq<string>)
    ensures tag in r <==> tag !in selected
  {
    if tag in selected then
      Seqs.FilterMembers(TagStore.Other(tag), selected, tag);
      Seqs.Filter(TagStore.Other(tag), selected)
    else selected + [tag]
  }

  /** `handleClearAll`. */
  function ClearAll(selected: seq<string>): (r: seq<string>)
    ensures |r| == 0
  {
    []
  }

  /** Toggling a selected tag keeps every other tag, in order, and nothing else. */
  lemma ToggleSelected(selected: seq<string>, tag: string)
    requires tag in selected
    ensures Seqs.IsSubsequence(Toggle(selected, tag), selected)
    ensures forall x :: x in Toggle(selected, tag) <==> x in selected && x != tag
  {
    Seqs.FilterIsSubsequence(TagStore.Other(tag), selected);
    forall x ensures x in Toggle(selected, tag) <==> x in selected && x != tag {
      Seqs.FilterMembers(TagStore.Other(tag), selected, x);
    }
  }

  /** Toggling an unselected tag appends it after the current selection. */
  lemma ToggleUnselected(selected: seq<string>, tag: string)
    requires tag !in selected
    ensures var r := Toggle(selected, tag);
            |r| == |selected| + 1 && r[..|selected|] == selected && r[|selected|] == tag
  {
  }

  /** Clicking an unselected tag twice gives the selection back. */
  lemma ToggleTwice(selected: seq<string>, tag: string)
    requires tag !in selected
    ensures Toggle(Toggle(selected, tag), tag) == selected
  {
    var f := TagStore.Other(tag);
    Seqs.FilterAppend(f, selected, [tag]);
    Seqs.FilterAll(f, selected);
    Seqs.FilterSingle(f, tag);
  }

  /** A duplicate-free selection stays duplicate-free. */
  lemma ToggleDistinct(selected: seq<string>, tag: string)
    requires Seqs.Distinct(selected)
    ensures Seqs.Distinct(Toggle(selected, tag))
  {
    if tag in selected {
      Seqs.FilterDistinct(TagStore.Other(tag), selected);
    }
  }
}
