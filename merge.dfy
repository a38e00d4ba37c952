/** The merge of a stored library with the default catalog (mergeDefaultLibrary):
    a specification as a fold over the catalog, the loop the source runs, and
    the properties the merge promises — it only appends, it appends exactly
    the missing catalog entries in catalog order, and running it twice
    changes nothing more. */
module Merge {
  import opened StorageTypes

  /** The labels of a list of items: `new Set(items.map(item => item.labelText))`. */
  function Labels(items: seq<LibraryItem>): set<string> {
    set it | it in items :: it.labelText
  }

  /** `lib.findIndex(cat => cat.category === name)`: the first index holding
      that exact (case-sensitive) name, or -1. */
  function FindCategory(lib: Library, name: string): (k: int)
    ensures -1 <= k < |lib|
    ensures 0 <= k ==> lib[k].category == name && forall j :: 0 <= j < k ==> lib[j].category != name
    ensures k < 0 ==> forall j :: 0 <= j < |lib| ==> lib[j].category != name
    decreases |lib|
  {
    if |lib| == 0 then -1
    else if lib[0].category == name then 0
    else
      var k := FindCategory(lib[1..], name);
      if k < 0 then -1 else k + 1
  }

  /** a is obtained from b by deleting elements: b's order is kept. */
  ghost predicate Subsequence<T>(a: seq<T>, b: seq<T>)
    decreases |b|
  {
    && |a| <= |b|
    && (|a| == 0
        || (a[|a| - 1] == b[|b| - 1] && Subsequence(a[..|a| - 1], b[..|b| - 1]))
        || Subsequence(a, b[..|b| - 1]))
  }

  /** The catalog items of one category that the merge appends: those whose
      label is not among the labels the category held before this step,
      in catalog order. */
  function MissingItems(existing: set<string>, defaults: seq<LibraryItem>): (r: seq<LibraryItem>)
    ensures |r| <= |defaults|
    decreases |defaults|
  {
    if |defaults| == 0 then []
    else
      var rest := MissingItems(existing, defaults[..|defaults| - 1]);
      var d := defaults[|defaults| - 1];
      if d.labelText in existing then rest else rest + [d]
  }

  /** A catalog item is appended exactly when its label is not already
      present; the appended items keep catalog order; when every label is
      present nothing is appended. */
  lemma {:induction false} MissingItemsExactly(existing: set<string>, defaults: seq<LibraryItem>)
    ensures var r := MissingItems(existing, defaults);
      && (forall x :: x in r <==> x in defaults && x.labelText !in existing)
      && Subsequence(r, defaults)
      && ((forall x :: x in defaults ==> x.labelText in existing) ==> r == [])
    decreases |defaults|
  {
    if |defaults| > 0 {
      var pre := defaults[..|defaults| - 1];
      var d := defaults[|defaults| - 1];
      MissingItemsExactly(existing, pre);
      assert forall x :: x in defaults <==> x in pre || x == d;
    }
  }

  /** One iteration of the outer loop: merge one catalog category into the
      working library. */
  function MergeCategory(lib: Library, d: LibraryCategory): Library {
    var k := FindCategory(lib, d.category);
    if k >= 0 then
      lib[k := lib[k].(items := lib[k].items + MissingItems(Labels(lib[k].items), d.items))]
    else
      lib + [d]
  }

  /** The merge of a stored library with a catalog: the catalog's categories
      are merged one after the other, in catalog order. */
  function MergeLibrary(user: Library, defaults: Library): Library
    decreases |defaults|
  {
    if |defaults| == 0 then user
    else MergeCategory(MergeLibrary(user, defaults[..|defaults| - 1]), defaults[|defaults| - 1])
  }

  /** One more catalog category merged. */
  lemma MergeLibraryStep(user: Library, defaults: Library, i: int)
    requires 0 <= i < |defaults|
    ensures MergeLibrary(user, defaults[..i + 1]) == MergeCategory(MergeLibrary(user, defaults[..i]), defaults[i])
  {
    assert defaults[..i + 1][..i] == defaults[..i];
  }

  /** One more catalog item considered. */
  lemma MissingItemsStep(existing: set<string>, defaults: seq<LibraryItem>, j: int)
    requires 0 <= j < |defaults|
    ensures MissingItems(existing, defaults[..j + 1])
         == MissingItems(existing, defaults[..j]) + (if defaults[j].labelText in existing then [] else [defaults[j]])
  {
    assert defaults[..j + 1][..j] == defaults[..j];
  }

  /** mergeDefaultLibrary as the source runs it: copy the stored list, then
      for each catalog category find the first category of that name and
      push the catalog items whose labels it did not hold, or push the whole
      catalog category at the end. */
  method MergeDefaultLibrary(userLibrary: Library, defaultLib: Library) returns (merged: Library)
    ensures merged == MergeLibrary(userLibrary, defaultLib)
  {
    merged := userLibrary;
    var i := 0;
    while i < |defaultLib|
      invariant 0 <= i <= |defaultLib|
      invariant merged == MergeLibrary(userLibrary, defaultLib[..i])
    {
      var defaultCategory := defaultLib[i];
      var existingCategoryIndex := FindCategory(merged, defaultCategory.category);
      if existingCategoryIndex >= 0 {
        var existingCategory := merged[existingCategoryIndex];
        var existingLabels := Labels(existingCategory.items);
        var items := existingCategory.items;
        var j := 0;
        while j < |defaultCategory.items|
          invariant 0 <= j <= |defaultCategory.items|
          invariant items == existingCategory.items + MissingItems(existingLabels, defaultCategory.items[..j])
        {
          var defaultItem := defaultCategory.items[j];
          MissingItemsStep(existingLabels, defaultCategory.items, j);
          if defaultItem.labelText !in existingLabels {
            items := items + [defaultItem];
          }
          j := j + 1;
        }
        assert defaultCategory.items[..j] == defaultCategory.items;
        merged := merged[existingCategoryIndex := existingCategory.(items := items)];
      } else {
        merged := merged + [defaultCategory];
      }
      MergeLibraryStep(userLibrary, defaultLib, i);
      i := i + 1;
    }
    assert defaultLib[..i] == defaultLib;
  }

  // ---------------------------------------------------------------------
  // The merge only appends.

  /** b keeps every category of a at its index, with the same name and
      colour, and with a's items as a prefix of its own. */
  ghost predicate Extends(a: Library, b: Library) {
    && |a| <= |b|
    && forall i :: 0 <= i < |a| ==>
         && b[i].category == a[i].category
         && b[i].colorType == a[i].colorType
         && a[i].items <= b[i].items
  }

  lemma ExtendsTransitive(a: Library, b: Library, c: Library)
    requires Extends(a, b) && Extends(b, c)
    ensures Extends(a, c)
  {
    forall i | 0 <= i < |a|
      ensures a[i].items <= c[i].items
    {
      assert a[i].items <= b[i].items <= c[i].items;
    }
  }

  lemma MergeCategoryExtends(lib: Library, d: LibraryCategory)
    ensures Extends(lib, MergeCategory(lib, d))
  {
  }

  /** Merging keeps every stored category at its original index with the same
      name and colour, and every stored item at its original position; it
      only appends items and categories. */
  lemma {:induction false} MergeLibraryExtends(user: Library, defaults: Library)
    ensures Extends(user, MergeLibrary(user, defaults))
    decreases |defaults|
  {
    if |defaults| > 0 {
      var w := MergeLibrary(user, defaults[..|defaults| - 1]);
      MergeLibraryExtends(user, defaults[..|defaults| - 1]);
      MergeCategoryExtends(w, defaults[|defaults| - 1]);
      ExtendsTransitive(user, w, MergeLibrary(user, defaults));
    }
  }

  /** Nothing is lost: every stored label is still in its category. */
  lemma MergeKeepsLabels(user: Library, defaults: Library, i: int, l: string)
    requires 0 <= i < |user| && l in Labels(user[i].items)
    ensures i < |MergeLibrary(user, defaults)| && l in Labels(MergeLibrary(user, defaults)[i].items)
  {
    MergeLibraryExtends(user, defaults);
    var r := MergeLibrary(user, defaults);
    var it :| it in user[i].items && it.labelText == l;
    assert user[i].items <= r[i].items;
    assert it in r[i].items;
  }

  // ---------------------------------------------------------------------
  // Exactly the missing entries are appended, in catalog order.

  /** The catalog categories whose name matches no stored category, in
      catalog order. */
  function Unmatched(user: Library, defaults: Library): (r: Library)
    ensures |r| <= |defaults|
    decreases |defaults|
  {
    if |defaults| == 0 then []
    else
      var rest := Unmatched(user, defaults[..|defaults| - 1]);
      var d := defaults[|defaults| - 1];
      if FindCategory(user, d.category) < 0 then rest + [d] else rest
  }

  /** The unmatched catalog categories are exactly those whose name no stored
      category carries, in catalog order. */
  lemma {:induction false} UnmatchedExactly(user: Library, defaults: Library)
    ensures var r := Unmatched(user, defaults);
      && (forall x :: x in r <==> x in defaults && FindCategory(user, x.category) < 0)
      && Subsequence(r, defaults)
    decreases |defaults|
  {
    if |defaults| > 0 {
      var pre := defaults[..|defaults| - 1];
      var d := defaults[|defaults| - 1];
      UnmatchedExactly(user, pre);
      assert forall x :: x in defaults <==> x in pre || x == d;
    }
  }

  /** What becomes of stored category i: if it is the first category with its
      name and the catalog has a category of that name, it gains that
      category's missing items; otherwise it stays as it is. */
  function Updated(user: Library, defaults: Library, i: int): (r: LibraryCategory)
    requires 0 <= i < |user|
    ensures r.category == user[i].category && r.colorType == user[i].colorType
  {
    var j := FindCategory(defaults, user[i].category);
    if j >= 0 && FindCategory(user, user[i].category) == i then
      user[i].(items := user[i].items + MissingItems(Labels(user[i].items), defaults[j].items))
    else
      user[i]
  }

  /** No two catalog categories share a name. */
  ghost predicate DistinctNames(lib: Library) {
    forall i, j :: 0 <= i < j < |lib| ==> lib[i].category != lib[j].category
  }

  /** r is the closed form of merging the catalog into the stored library. */
  ghost predicate ClosedForm(user: Library, defaults: Library, r: Library) {
    && |r| == |user| + |Unmatched(user, defaults)|
    && (forall i :: 0 <= i < |user| ==> r[i] == Updated(user, defaults, i))
    && r[|user|..] == Unmatched(user, defaults)
  }

  /** The first index of a name in a library whose first categories carry the
      names of a shorter library is the same as in that library. */
  lemma FindCategoryPrefix(a: Library, b: Library, name: string)
    requires |a| <= |b|
    requires forall i :: 0 <= i < |a| ==> b[i].category == a[i].category
    ensures FindCategory(a, name) >= 0 ==> FindCategory(b, name) == FindCategory(a, name)
    ensures (FindCategory(a, name) < 0 && (forall i :: |a| <= i < |b| ==> b[i].category != name))
              ==> FindCategory(b, name) < 0
  {
    var ka, kb := FindCategory(a, name), FindCategory(b, name);
    if ka >= 0 {
      assert b[ka].category == name;
    }
  }

  /** Searching a library with one more category at the end. */
  lemma FindCategorySnoc(pre: Library, d: LibraryCategory, name: string)
    ensures name != d.category ==> FindCategory(pre + [d], name) == FindCategory(pre, name)
    ensures (name == d.category && FindCategory(pre, name) < 0) ==> FindCategory(pre + [d], name) == |pre|
  {
    var lib := pre + [d];
    var ka, kb := FindCategory(pre, name), FindCategory(lib, name);
    assert forall i :: 0 <= i < |pre| ==> lib[i] == pre[i];
    FindCategoryPrefix(pre, lib, name);
    if name == d.category {
      assert lib[|pre|] == d;
    }
  }

  lemma DistinctNamesSnoc(pre: Library, d: LibraryCategory)
    requires DistinctNames(pre + [d])
    ensures DistinctNames(pre)
    ensures forall j :: 0 <= j < |pre| ==> pre[j].category != d.category
  {
    var lib := pre + [d];
    forall j | 0 <= j < |pre|
      ensures pre[j].category != d.category
    {
      assert lib[j] == pre[j] && lib[|pre|] == d;
    }
    forall i, j | 0 <= i < j < |pre|
      ensures pre[i].category != pre[j].category
    {
      assert lib[i] == pre[i] && lib[j] == pre[j];
    }
  }

  /** How one more catalog category, whose name the earlier ones do not use,
      changes the fate of stored category i. */
  lemma UpdatedSnoc(user: Library, pre: Library, d: LibraryCategory, i: int)
    requires 0 <= i < |user|
    requires forall j :: 0 <= j < |pre| ==> pre[j].category != d.category
    ensures user[i].category != d.category ==> Updated(user, pre + [d], i) == Updated(user, pre, i)
    ensures user[i].category == d.category ==> Updated(user, pre, i) == user[i]
    ensures (user[i].category == d.category && FindCategory(user, d.category) != i)
              ==> Updated(user, pre + [d], i) == user[i]
    ensures (user[i].category == d.category && FindCategory(user, d.category) == i)
              ==> Updated(user, pre + [d], i)
                  == user[i].(items := user[i].items + MissingItems(Labels(user[i].items), d.items))
  {
    var name := user[i].category;
    var lib := pre + [d];
    FindCategorySnoc(pre, d, name);
    if name != d.category {
      var j := FindCategory(pre, name);
      if j >= 0 {
        assert lib[j] == pre[j];
      }
    } else {
      assert FindCategory(pre, name) < 0;
      assert lib[|pre|] == d;
    }
  }

  lemma UnmatchedSnoc(user: Library, pre: Library, d: LibraryCategory)
    ensures Unmatched(user, pre + [d])
         == Unmatched(user, pre) + (if FindCategory(user, d.category) < 0 then [d] else [])
  {
    assert (pre + [d])[..|pre|] == pre;
  }

  /** The step case of the closed form when the catalog category matches a
      stored category. */
  lemma ClosedFormStepMatched(user: Library, pre: Library, d: LibraryCategory)
    requires forall j :: 0 <= j < |pre| ==> pre[j].category != d.category
    requires ClosedForm(user, pre, MergeLibrary(user, pre))
    requires FindCategory(user, d.category) >= 0
    ensures ClosedForm(user, pre + [d], MergeCategory(MergeLibrary(user, pre), d))
  {
    var defaults := pre + [d];
    var w := MergeLibrary(user, pre);
    var k := FindCategory(user, d.category);
    UnmatchedSnoc(user, pre, d);
    assert forall i :: 0 <= i < |user| ==> w[i].category == user[i].category;
    FindCategoryPrefix(user, w, d.category);
    UpdatedSnoc(user, pre, d, k);
    var r := MergeCategory(w, d);
    assert r == w[k := user[k].(items := user[k].items + MissingItems(Labels(user[k].items), d.items))];
    forall i | 0 <= i < |user|
      ensures r[i] == Updated(user, defaults, i)
    {
      UpdatedSnoc(user, pre, d, i);
    }
    assert r[|user|..] == w[|user|..];
  }

  /** The categories the merge has appended so far are unmatched catalog
      categories, so none of them carries a later catalog name. */
  lemma AppendedNamesDiffer(user: Library, pre: Library, d: LibraryCategory, w: Library)
    requires forall j :: 0 <= j < |pre| ==> pre[j].category != d.category
    requires |user| <= |w| && w[|user|..] == Unmatched(user, pre)
    ensures forall i :: |user| <= i < |w| ==> w[i].category != d.category
  {
    UnmatchedExactly(user, pre);
    forall i | |user| <= i < |w|
      ensures w[i].category != d.category
    {
      var x := w[i];
      assert x == w[|user|..][i - |user|];
      assert x in Unmatched(user, pre);
      var j :| 0 <= j < |pre| && pre[j] == x;
    }
  }

  /** The step case of the closed form when the catalog category matches no
      stored category. */
  lemma ClosedFormStepUnmatched(user: Library, pre: Library, d: LibraryCategory)
    requires forall j :: 0 <= j < |pre| ==> pre[j].category != d.category
    requires ClosedForm(user, pre, MergeLibrary(user, pre))
    requires FindCategory(user, d.category) < 0
    ensures ClosedForm(user, pre + [d], MergeCategory(MergeLibrary(user, pre), d))
  {
    var defaults := pre + [d];
    var w := MergeLibrary(user, pre);
    UnmatchedSnoc(user, pre, d);
    AppendedNamesDiffer(user, pre, d, w);
    assert forall i :: 0 <= i < |user| ==> w[i].category == user[i].category;
    FindCategoryPrefix(user, w, d.category);
    var r := MergeCategory(w, d);
    assert r == w + [d];
    forall i | 0 <= i < |user|
      ensures r[i] == Updated(user, defaults, i)
    {
      assert user[i].category != d.category;
      UpdatedSnoc(user, pre, d, i);
      assert r[i] == w[i];
    }
    assert r[|user|..] == w[|user|..] + [d];
  }

  /** With distinct catalog names the merge has a closed form: every stored
      category, in place, either unchanged or (for the first category with a
      catalog name) extended by exactly the missing catalog items; then the
      unmatched catalog categories, whole and in catalog order. In particular
      the length grows by the number of unmatched catalog categories. */
  lemma {:induction false} MergeLibraryClosedForm(user: Library, defaults: Library)
    requires DistinctNames(defaults)
    ensures var r := MergeLibrary(user, defaults);
      && |r| == |user| + |Unmatched(user, defaults)|
      && (forall i :: 0 <= i < |user| ==> r[i] == Updated(user, defaults, i))
      && r[|user|..] == Unmatched(user, defaults)
    decreases |defaults|
  {
    if |defaults| == 0 {
      assert MergeLibrary(user, defaults)[|user|..] == [];
    } else {
      var pre, d := defaults[..|defaults| - 1], defaults[|defaults| - 1];
      assert defaults == pre + [d];
      DistinctNamesSnoc(pre, d);
      MergeLibraryClosedForm(user, pre);
      if FindCategory(user, d.category) >= 0 {
        ClosedFormStepMatched(user, pre, d);
      } else {
        ClosedFormStepUnmatched(user, pre, d);
      }
    }
  }

  /** When none of a catalog category's labels is already present, all of its
      items are appended, in catalog order. */
  lemma {:induction false} MissingItemsAllNew(existing: set<string>, defaults: seq<LibraryItem>)
    requires forall x :: x in defaults ==> x.labelText !in existing
    ensures MissingItems(existing, defaults) == defaults
    decreases |defaults|
  {
    if |defaults| > 0 {
      MissingItemsAllNew(existing, defaults[..|defaults| - 1]);
      assert defaults[..|defaults| - 1] + [defaults[|defaults| - 1]] == defaults;
    }
  }

  // ---------------------------------------------------------------------
  // Idempotence.

  /** The library already holds catalog category d: the first category with
      its name holds every one of d's labels. */
  ghost predicate Covers(lib: Library, d: LibraryCategory) {
    var k := FindCategory(lib, d.category);
    k >= 0 && forall m :: 0 <= m < |d.items| ==> d.items[m].labelText in Labels(lib[k].items)
  }

  lemma CoveredIsFixed(lib: Library, d: LibraryCategory)
    requires Covers(lib, d)
    ensures MergeCategory(lib, d) == lib
  {
    var k := FindCategory(lib, d.category);
    var m := MissingItems(Labels(lib[k].items), d.items);
    MissingItemsExactly(Labels(lib[k].items), d.items);
    assert forall x :: x in d.items ==> x.labelText in Labels(lib[k].items);
    assert lib[k].items + m == lib[k].items;
    assert lib[k].(items := lib[k].items) == lib[k];
    assert lib[k := lib[k]] == lib;
  }

  lemma MergeCategoryCovers(lib: Library, d: LibraryCategory)
    ensures Covers(MergeCategory(lib, d), d)
  {
    var r := MergeCategory(lib, d);
    var k := FindCategory(lib, d.category);
    if k >= 0 {
      FindCategoryPrefix(lib, r, d.category);
      var m := MissingItems(Labels(lib[k].items), d.items);
      MissingItemsExactly(Labels(lib[k].items), d.items);
      forall n | 0 <= n < |d.items|
        ensures d.items[n].labelText in Labels(r[k].items)
      {
        var x := d.items[n];
        if x.labelText !in Labels(lib[k].items) {
          assert x in m;
          assert x in r[k].items;
        } else {
          var y :| y in lib[k].items && y.labelText == x.labelText;
          assert y in r[k].items;
        }
      }
    } else {
      FindCategorySnoc(lib, d, d.category);
      assert FindCategory(r, d.category) == |lib|;
      forall n | 0 <= n < |d.items|
        ensures d.items[n].labelText in Labels(r[|lib|].items)
      {
        assert d.items[n] in r[|lib|].items;
      }
    }
  }

  lemma ExtendsKeepsCovers(a: Library, b: Library, d: LibraryCategory)
    requires Extends(a, b) && Covers(a, d)
    ensures Covers(b, d)
  {
    FindCategoryPrefix(a, b, d.category);
    var k := FindCategory(a, d.category);
    assert FindCategory(b, d.category) == k;
    var ai, bi := a[k].items, b[k].items;
    assert ai <= bi;
    forall n | 0 <= n < |d.items|
      ensures d.items[n].labelText in Labels(bi)
    {
      assert d.items[n].labelText in Labels(ai);
      var y :| y in ai && y.labelText == d.items[n].labelText;
      var t :| 0 <= t < |ai| && ai[t] == y;
      assert bi[t] == y;
      assert y in bi;
    }
  }

  /** After the merge every catalog category is covered. */
  lemma {:induction false} MergeLibraryCoversAll(user: Library, defaults: Library)
    ensures forall j :: 0 <= j < |defaults| ==> Covers(MergeLibrary(user, defaults), defaults[j])
    decreases |defaults|
  {
    if |defaults| > 0 {
      var pre, d := defaults[..|defaults| - 1], defaults[|defaults| - 1];
      var w := MergeLibrary(user, pre);
      var r := MergeLibrary(user, defaults);
      MergeLibraryCoversAll(user, pre);
      MergeCategoryCovers(w, d);
      MergeCategoryExtends(w, d);
      forall j | 0 <= j < |defaults|
        ensures Covers(r, defaults[j])
      {
        if j < |pre| {
          assert defaults[j] == pre[j];
          ExtendsKeepsCovers(w, r, pre[j]);
        }
      }
    }
  }

  /** A library that covers every catalog category is left as it is. */
  lemma {:induction false} CoveredLibraryIsFixed(lib: Library, defaults: Library)
    requires forall j :: 0 <= j < |defaults| ==> Covers(lib, defaults[j])
    ensures MergeLibrary(lib, defaults) == lib
    decreases |defaults|
  {
    if |defaults| > 0 {
      var pre := defaults[..|defaults| - 1];
      assert forall j :: 0 <= j < |pre| ==> pre[j] == defaults[j];
      CoveredLibraryIsFixed(lib, pre);
      CoveredIsFixed(lib, defaults[|defaults| - 1]);
    }
  }

  /** The merge is idempotent: merging its result again with the same catalog
      changes nothing. No assumption on the catalog is needed. */
  lemma MergeIdempotent(user: Library, defaults: Library)
    ensures MergeLibrary(MergeLibrary(user, defaults), defaults) == MergeLibrary(user, defaults)
  {
    MergeLibraryCoversAll(user, defaults);
    CoveredLibraryIsFixed(MergeLibrary(user, defaults), defaults);
  }
}
