/** Properties that relate several operations of the localisation table:
    insertion order of languages, round trips, and the consistency of every
    table reachable from a freshly created one. */
module LocalisationProperties {
  import opened Localisation

  // ---------------------------------------------------------------------
  // Adding languages one after another
  // ---------------------------------------------------------------------

  /** t after AddLanguage(names[0]), ..., AddLanguage(names[|names| - 1]). */
  function AddLanguages(t: Table, names: seq<string>): Table
  {
    if names == [] then t
    else AddLanguage(AddLanguages(t, names[..|names| - 1]), names[|names| - 1])
  }

  predicate Distinct(names: seq<string>)
  {
    forall i, j | 0 <= i < j < |names| :: names[i] != names[j]
  }

  /** Whatever names are added, duplicates included, the table then holds
      exactly the languages it held before and those names: a name never
      added is never contained. */
  lemma {:induction false} AddLanguagesContains(t: Table, names: seq<string>)
    ensures forall n :: HasLanguage(AddLanguages(t, names).Languages, n) <==> HasLanguage(t.Languages, n) || n in names
  {
    if names != [] {
      var init := names[..|names| - 1];
      AddLanguagesContains(t, init);
      forall n ensures n in names <==> n in init || n == names[|names| - 1] {
        assert names == init + [names[|names| - 1]];
      }
    }
  }

  /** The languages called names, in that order. */
  function LanguagesNamed(names: seq<string>): (ls: seq<Language>)
    ensures |ls| == |names|
    ensures forall i | 0 <= i < |names| :: ls[i] == Language(names[i])
  {
    seq(|names|, i requires 0 <= i < |names| => Language(names[i]))
  }

  /** Distinct names added to a fresh table make up its language list, in
      insertion order, and the table is consistent. */
  lemma {:induction false} AddLanguagesList(names: seq<string>)
    requires Distinct(names)
    ensures AddLanguages(EmptyTable(), names).Languages == LanguagesNamed(names)
    ensures Consistent(AddLanguages(EmptyTable(), names))
  {
    if names != [] {
      var init := names[..|names| - 1];
      var last := names[|names| - 1];
      assert Distinct(init);
      AddLanguagesList(init);
      assert LanguagesNamed(names) == LanguagesNamed(init) + [Language(last)];
    }
  }

  /** In a list of unique names, each name is found at its own position. */
  lemma IndexInUniqueList(ls: seq<Language>, i: nat)
    requires UniqueNames(ls) && i < |ls|
    ensures LanguageIndex(ls, ls[i].Name) == i
  {
  }

  /** Distinct names added to a fresh table sit at their 0-based insertion
      positions: GetLanguages has one language per name, GetLanguageIndex
      of the i-th name is i, and GetLanguage finds each name. */
  lemma AddLanguagesInOrder(names: seq<string>)
    requires Distinct(names)
    ensures var t := AddLanguages(EmptyTable(), names);
      && |t.Languages| == |names|
      && forall i | 0 <= i < |names| ::
           && LanguageIndex(t.Languages, names[i]) == i
           && GetLanguage(t, names[i]) == Some(Language(names[i]))
  {
    var t := AddLanguages(EmptyTable(), names);
    AddLanguagesList(names);
    forall i | 0 <= i < |names|
      ensures LanguageIndex(t.Languages, names[i]) == i
    {
      IndexInUniqueList(t.Languages, i);
    }
  }

  // ---------------------------------------------------------------------
  // Round trips
  // ---------------------------------------------------------------------

  /** Adding a new language and removing it again restores the table: the
      slot AddLanguage appends to every entry is exactly the one
      RemoveLanguage deletes. */
  lemma AddThenRemoveLanguage(t: Table, name: string)
    requires Consistent(t) && !HasLanguage(t.Languages, name)
    ensures RemoveLanguage(AddLanguage(t, name), name) == t
  {
    var a := AddLanguage(t, name);
    var n := |t.Languages|;
    assert a.Languages == t.Languages + [Language(name)];
    assert RemoveAt(a.Languages, n) == t.Languages;
    var r := RemoveLanguage(a, name);
    assert r == DropLanguageAt(a, n);
    forall k | 0 <= k < |t.Entries| ensures r.Entries[k] == t.Entries[k] {
      assert a.Entries[k].Values == t.Entries[k].Values + [BlankText];
      assert RemoveAt(a.Entries[k].Values, n) == t.Entries[k].Values;
    }
  }

  /** Adding a new key and removing it again restores the table, except for
      the default language AddEntry creates in a table without languages. */
  lemma AddThenRemoveEntry(t: Table, key: string)
    requires Consistent(t) && !HasKey(t.Entries, key)
    ensures RemoveEntry(AddEntry(t, key), key) ==
            if t.Languages == [] then AddLanguage(t, DefaultLanguageName) else t
  {
    var before := if t.Languages == [] then AddLanguage(t, DefaultLanguageName) else t;
    assert !HasKey(before.Entries, key);
    assert AddEntry(t, key) == AppendEntry(before, key);
    AppendThenRemoveEntry(before, key);
  }

  /** Removing the key just appended gives back the table it was appended to. */
  lemma AppendThenRemoveEntry(t: Table, key: string)
    requires !HasKey(t.Entries, key)
    ensures RemoveEntry(AppendEntry(t, key), key) == t
  {
    var a := AppendEntry(t, key);
    var n := |t.Entries|;
    assert a.Entries[n].Key == key;
    assert EntryIndex(a.Entries, key) == n;
    assert RemoveAt(a.Entries, n) == t.Entries;
  }

  // ---------------------------------------------------------------------
  // Sequences of operations from a fresh table
  // ---------------------------------------------------------------------

  /** One call a client makes on the asset. */
  datatype Operation =
    | AddLanguageOp(name: string)
    | RemoveLanguageOp(name: string)
    | AddEntryOp(key: string)
    | RemoveEntryOp(key: string)
    | SetTextOp(key: string, slot: nat, text: string)

  function Apply(t: Table, op: Operation): Table
  {
    match op
    case AddLanguageOp(name) => AddLanguage(t, name)
    case RemoveLanguageOp(name) => RemoveLanguage(t, name)
    case AddEntryOp(key) => AddEntry(t, key)
    case RemoveEntryOp(key) => RemoveEntry(t, key)
    case SetTextOp(key, slot, text) => SetText(t, key, slot, text)
  }

  /** t after the operations, first to last. */
  function Run(t: Table, ops: seq<Operation>): Table
    decreases |ops|
  {
    if ops == [] then t else Run(Apply(t, ops[0]), ops[1..])
  }

  /** InternalVerifyState() stays null: every operation keeps a consistent
      table consistent, whatever the order. */
  lemma {:induction false} RunKeepsConsistent(t: Table, ops: seq<Operation>)
    requires Consistent(t)
    ensures Consistent(Run(t, ops))
    decreases |ops|
  {
    if ops != [] {
      RunKeepsConsistent(Apply(t, ops[0]), ops[1..]);
    }
  }

  /** A freshly created table, whatever is then done to it, is consistent. */
  lemma FreshTableStaysConsistent(ops: seq<Operation>)
    ensures Consistent(Run(EmptyTable(), ops))
  {
    RunKeepsConsistent(EmptyTable(), ops);
  }

  /** Two entry lists with the same keys at the same positions contain the
      same keys. */
  lemma SameKeys(a: seq<Entry>, b: seq<Entry>)
    requires |a| == |b|
    requires forall k | 0 <= k < |a| :: a[k].Key == b[k].Key
    ensures forall key :: HasKey(a, key) <==> HasKey(b, key)
  {
    forall key ensures HasKey(a, key) ==> HasKey(b, key) {
      if HasKey(a, key) {
        var k :| 0 <= k < |a| && a[k].Key == key;
        assert b[k].Key == key;
      }
    }
  }

  /** ContainsEntry is false for a key that no operation added. */
  lemma {:induction false} RunNeverAddedKey(t: Table, ops: seq<Operation>, key: string)
    requires !HasKey(t.Entries, key)
    requires AddEntryOp(key) !in ops
    ensures !HasKey(Run(t, ops).Entries, key)
    decreases |ops|
  {
    if ops != [] {
      var next := Apply(t, ops[0]);
      match ops[0] {
        case AddLanguageOp(_) => SameKeys(t.Entries, next.Entries);
        case RemoveLanguageOp(_) => SameKeys(t.Entries, next.Entries);
        case SetTextOp(_, _, _) => SameKeys(t.Entries, next.Entries);
        case AddEntryOp(_) =>
        case RemoveEntryOp(_) =>
      }
      assert AddEntryOp(key) !in ops[1..];
      RunNeverAddedKey(next, ops[1..], key);
    }
  }

  /** ContainsLanguage is false for a name that no operation added, where
      AddEntry counts as adding the default language. */
  lemma {:induction false} RunNeverAddedLanguage(t: Table, ops: seq<Operation>, name: string)
    requires !HasLanguage(t.Languages, name)
    requires AddLanguageOp(name) !in ops
    requires name == DefaultLanguageName ==> forall op | op in ops :: !op.AddEntryOp?
    ensures !HasLanguage(Run(t, ops).Languages, name)
    decreases |ops|
  {
    if ops != [] {
      var next := Apply(t, ops[0]);
      if ops[0].AddEntryOp? {
        assert ops[0] in ops;
      }
      assert AddLanguageOp(name) !in ops[1..];
      assert forall op | op in ops[1..] :: op in ops;
      RunNeverAddedLanguage(next, ops[1..], name);
    }
  }
}
