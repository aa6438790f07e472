/** Value-level model of the LocalisationData asset: an ordered list of
    languages, unique by name, and a list of entries, unique by key, whose
    value slots are index-aligned with the language list (slot i of an entry
    holds that entry's text for the language at position i).

    Every operation of the asset appears here as a function on a Table value;
    the imperative class in module LocalisationObjects is proved to follow
    these functions. */
module Localisation {

  datatype Option<T> = None | Some(value: T)

  /** A translation target, identified by its name. */
  datatype Language = Language(Name: string)

  /** A keyed text with one value slot per language. */
  datatype Entry = Entry(Key: string, Values: seq<string>)

  datatype Table = Table(Languages: seq<Language>, Entries: seq<Entry>)

  /** The language AddEntry creates when the table has none. */
  const DefaultLanguageName: string := "English"

  /** The text a freshly created value slot holds. */
  const BlankText: string := ""

  /** GetLanguageIndex's answer for a name that is not in the table. */
  const NotFound: int := -1

  // ---------------------------------------------------------------------
  // The consistency condition InternalVerifyState() checks: it returns
  // null exactly when the table satisfies Consistent.
  // ---------------------------------------------------------------------

  predicate UniqueNames(ls: seq<Language>)
  {
    forall i, j | 0 <= i < j < |ls| :: ls[i].Name != ls[j].Name
  }

  predicate UniqueKeys(es: seq<Entry>)
  {
    forall i, j | 0 <= i < j < |es| :: es[i].Key != es[j].Key
  }

  predicate SlotsAligned(t: Table)
  {
    forall k | 0 <= k < |t.Entries| :: |t.Entries[k].Values| == |t.Languages|
  }

  predicate Consistent(t: Table)
  {
    UniqueNames(t.Languages) && UniqueKeys(t.Entries) && SlotsAligned(t)
  }

  /** What InternalVerifyState() reports when the table is not consistent. */
  datatype Violation =
    | DuplicateLanguage(Name: string)
    | DuplicateKey(Key: string)
    | SlotCountMismatch(Key: string, Slots: nat, LanguageCount: nat)

  /** v describes a real defect of t; any such defect breaks Consistent. */
  predicate Exhibits(t: Table, v: Violation)
    ensures Exhibits(t, v) ==> !Consistent(t)
  {
    match v
    case DuplicateLanguage(name) =>
      exists i, j | 0 <= i < j < |t.Languages| :: t.Languages[i].Name == name && t.Languages[j].Name == name
    case DuplicateKey(key) =>
      exists i, j | 0 <= i < j < |t.Entries| :: t.Entries[i].Key == key && t.Entries[j].Key == key
    case SlotCountMismatch(key, slots, count) =>
      && count == |t.Languages|
      && slots != count
      && exists k | 0 <= k < |t.Entries| :: t.Entries[k].Key == key && |t.Entries[k].Values| == slots
  }

  predicate HasLanguage(ls: seq<Language>, name: string)
  {
    exists i | 0 <= i < |ls| :: ls[i].Name == name
  }

  predicate HasKey(es: seq<Entry>, key: string)
  {
    exists k | 0 <= k < |es| :: es[k].Key == key
  }

  /** A freshly created asset: no languages, no entries, and consistent. */
  function EmptyTable(): (t: Table)
    ensures Consistent(t)
    ensures forall name :: !HasLanguage(t.Languages, name)
    ensures forall key :: !HasKey(t.Entries, key)
  {
    Table([], [])
  }

  // ---------------------------------------------------------------------
  // Lookups
  // ---------------------------------------------------------------------

  /** Position of the first language called name, or NotFound. */
  function LanguageIndex(ls: seq<Language>, name: string): (r: int)
    ensures NotFound <= r < |ls|
    ensures r == NotFound <==> !HasLanguage(ls, name)
    ensures r != NotFound ==> ls[r].Name == name && forall i | 0 <= i < r :: ls[i].Name != name
  {
    if ls == [] then NotFound
    else if ls[0].Name == name then 0
    else
      var r := LanguageIndex(ls[1..], name);
      assert HasLanguage(ls, name) ==> HasLanguage(ls[1..], name) by {
        if HasLanguage(ls, name) {
          var i :| 0 <= i < |ls| && ls[i].Name == name;
          assert ls[1..][i - 1].Name == name;
        }
      }
      if r == NotFound then NotFound else r + 1
  }

  /** Position of the first entry with the given key, or NotFound. */
  function EntryIndex(es: seq<Entry>, key: string): (r: int)
    ensures NotFound <= r < |es|
    ensures r == NotFound <==> !HasKey(es, key)
    ensures r != NotFound ==> es[r].Key == key && forall k | 0 <= k < r :: es[k].Key != key
  {
    if es == [] then NotFound
    else if es[0].Key == key then 0
    else
      var r := EntryIndex(es[1..], key);
      assert HasKey(es, key) ==> HasKey(es[1..], key) by {
        if HasKey(es, key) {
          var k :| 0 <= k < |es| && es[k].Key == key;
          assert es[1..][k - 1].Key == key;
        }
      }
      if r == NotFound then NotFound else r + 1
  }

  /** GetLanguage: the language called name, if there is one. */
  function GetLanguage(t: Table, name: string): (r: Option<Language>)
    ensures r.Some? <==> HasLanguage(t.Languages, name)
    ensures r.Some? ==> r.value.Name == name && r.value in t.Languages
  {
    var i := LanguageIndex(t.Languages, name);
    if i == NotFound then None else Some(t.Languages[i])
  }

  /** GetEntry: the entry with the given key, if there is one. */
  function GetEntry(t: Table, key: string): (r: Option<Entry>)
    ensures r.Some? <==> HasKey(t.Entries, key)
    ensures r.Some? ==> r.value.Key == key && r.value in t.Entries
  {
    var k := EntryIndex(t.Entries, key);
    if k == NotFound then None else Some(t.Entries[k])
  }

  // ---------------------------------------------------------------------
  // Slot arrays
  // ---------------------------------------------------------------------

  /** The slots of a new entry: n blank texts. */
  function Blank(n: nat): (s: seq<string>)
    ensures |s| == n
    ensures forall j | 0 <= j < n :: s[j] == BlankText
  {
    seq(n, _ => BlankText)
  }

  /** s without its element at position i; later elements move down by one. */
  function RemoveAt<T>(s: seq<T>, i: nat): (r: seq<T>)
    ensures i < |s| ==> |r| == |s| - 1
    ensures i < |s| ==> forall j | 0 <= j < |r| :: r[j] == s[if j < i then j else j + 1]
    ensures i >= |s| ==> r == s
  {
    if i < |s| then s[..i] + s[i + 1..] else s
  }

  /** Every entry with one more, blank, slot at the end. */
  function WithBlankSlot(es: seq<Entry>): (r: seq<Entry>)
    ensures |r| == |es|
    ensures forall k | 0 <= k < |es| :: r[k] == Entry(es[k].Key, es[k].Values + [BlankText])
  {
    seq(|es|, k requires 0 <= k < |es| => Entry(es[k].Key, es[k].Values + [BlankText]))
  }

  /** Every entry without its slot i. */
  function WithoutSlot(es: seq<Entry>, i: nat): (r: seq<Entry>)
    ensures |r| == |es|
    ensures forall k | 0 <= k < |es| :: r[k] == Entry(es[k].Key, RemoveAt(es[k].Values, i))
  {
    seq(|es|, k requires 0 <= k < |es| => Entry(es[k].Key, RemoveAt(es[k].Values, i)))
  }

  // ---------------------------------------------------------------------
  // Mutations
  // ---------------------------------------------------------------------

  /** AddLanguage: a name already present leaves the table as it is;
      otherwise the language goes to the end of the list and every entry
      gets one blank slot at that same new position. */
  function AddLanguage(t: Table, name: string): (r: Table)
    ensures HasLanguage(r.Languages, name)
    ensures HasLanguage(t.Languages, name) ==> r == t
    ensures forall n :: HasLanguage(r.Languages, n) <==> HasLanguage(t.Languages, n) || n == name
    ensures !HasLanguage(t.Languages, name) ==> LanguageIndex(r.Languages, name) == |t.Languages|
    ensures |r.Entries| == |t.Entries|
    ensures !HasLanguage(t.Languages, name) ==>
      && r.Languages == t.Languages + [Language(name)]
      && forall k | 0 <= k < |t.Entries| :: r.Entries[k].Values == t.Entries[k].Values + [BlankText]
    ensures forall k | 0 <= k < |t.Entries| ::
      && r.Entries[k].Key == t.Entries[k].Key
      && |t.Entries[k].Values| <= |r.Entries[k].Values|
      && r.Entries[k].Values[..|t.Entries[k].Values|] == t.Entries[k].Values
    ensures Consistent(t) ==> Consistent(r)
  {
    if HasLanguage(t.Languages, name) then t
    else
      var r := Table(t.Languages + [Language(name)], WithBlankSlot(t.Entries));
      assert forall n :: HasLanguage(r.Languages, n) ==> HasLanguage(t.Languages, n) || n == name by {
        forall n | HasLanguage(r.Languages, n) ensures HasLanguage(t.Languages, n) || n == name {
          var i :| 0 <= i < |r.Languages| && r.Languages[i].Name == n;
          if i < |t.Languages| { assert t.Languages[i].Name == n; }
        }
      }
      assert forall n :: HasLanguage(t.Languages, n) ==> HasLanguage(r.Languages, n) by {
        forall n | HasLanguage(t.Languages, n) ensures HasLanguage(r.Languages, n) {
          var i :| 0 <= i < |t.Languages| && t.Languages[i].Name == n;
          assert r.Languages[i].Name == n;
        }
      }
      assert r.Languages[|t.Languages|].Name == name;
      r
  }

  /** RemoveLanguage: a name not present leaves the table as it is;
      otherwise the language at index i leaves the list and every entry
      loses slot i, its later slots moving down by one. */
  function RemoveLanguage(t: Table, name: string): (r: Table)
    ensures !HasLanguage(t.Languages, name) ==> r == t
    ensures |r.Entries| == |t.Entries|
    ensures HasLanguage(t.Languages, name) ==>
      var i := LanguageIndex(t.Languages, name);
      && r.Languages == RemoveAt(t.Languages, i)
      && forall k | 0 <= k < |t.Entries| :: r.Entries[k].Values == RemoveAt(t.Entries[k].Values, i)
    ensures forall k | 0 <= k < |t.Entries| :: r.Entries[k].Key == t.Entries[k].Key
    ensures forall n | n != name :: HasLanguage(r.Languages, n) <==> HasLanguage(t.Languages, n)
    ensures Consistent(t) ==> Consistent(r) && !HasLanguage(r.Languages, name)
    ensures Consistent(t) && HasLanguage(t.Languages, name) ==>
      var i := LanguageIndex(t.Languages, name);
      && |r.Languages| == |t.Languages| - 1
      && forall k, j | 0 <= k < |r.Entries| && 0 <= j < |r.Languages| ::
           r.Entries[k].Values[j] == t.Entries[k].Values[if j < i then j else j + 1]
  {
    var i := LanguageIndex(t.Languages, name);
    if i == NotFound then t
    else
      DropLanguageKeepsOthers(t, i);
      DropLanguageKeepsConsistency(t, i);
      DropLanguageAt(t, i)
  }

  /** The table without the language at index i and without slot i of
      every entry. */
  function DropLanguageAt(t: Table, i: nat): (r: Table)
    requires i < |t.Languages|
    ensures r.Languages == RemoveAt(t.Languages, i)
    ensures |r.Languages| == |t.Languages| - 1
    ensures |r.Entries| == |t.Entries|
    ensures forall k | 0 <= k < |t.Entries| ::
      r.Entries[k].Key == t.Entries[k].Key && r.Entries[k].Values == RemoveAt(t.Entries[k].Values, i)
  {
    Table(RemoveAt(t.Languages, i), WithoutSlot(t.Entries, i))
  }

  lemma DropLanguageKeepsOthers(t: Table, i: nat)
    requires i < |t.Languages|
    ensures forall n | n != t.Languages[i].Name ::
      HasLanguage(DropLanguageAt(t, i).Languages, n) <==> HasLanguage(t.Languages, n)
  {
    var r := DropLanguageAt(t, i);
    forall n | n != t.Languages[i].Name
      ensures HasLanguage(r.Languages, n) <==> HasLanguage(t.Languages, n)
    {
      if HasLanguage(r.Languages, n) {
        var j :| 0 <= j < |r.Languages| && r.Languages[j].Name == n;
        assert t.Languages[if j < i then j else j + 1].Name == n;
      }
      if HasLanguage(t.Languages, n) {
        var j :| 0 <= j < |t.Languages| && t.Languages[j].Name == n;
        assert r.Languages[if j < i then j else j - 1].Name == n;
      }
    }
  }

  lemma DropLanguageKeepsConsistency(t: Table, i: nat)
    requires i < |t.Languages|
    ensures Consistent(t) ==>
      Consistent(DropLanguageAt(t, i)) && !HasLanguage(DropLanguageAt(t, i).Languages, t.Languages[i].Name)
  {
  }

  /** AddEntry: an existing key leaves the table as it is; otherwise, when
      the table has no language, the default language is added first, and
      then a new entry with one blank slot per language goes to the end. */
  function AddEntry(t: Table, key: string): (r: Table)
    ensures HasKey(r.Entries, key)
    ensures HasKey(t.Entries, key) ==> r == t
    ensures forall k :: HasKey(r.Entries, k) <==> HasKey(t.Entries, k) || k == key
    ensures !HasKey(t.Entries, key) ==>
      && r.Languages == (if t.Languages == [] then [Language(DefaultLanguageName)] else t.Languages)
      && |r.Entries| == |t.Entries| + 1
      && r.Entries[|t.Entries|] == Entry(key, Blank(|r.Languages|))
      && r.Entries[..|t.Entries|] == (if t.Languages == [] then WithBlankSlot(t.Entries) else t.Entries)
    ensures Consistent(t) ==> Consistent(r)
  {
    if HasKey(t.Entries, key) then t
    else
      var t1 := if t.Languages == [] then AddLanguage(t, DefaultLanguageName) else t;
      AppendEntryKeys(t1, key);
      AppendEntry(t1, key)
  }

  /** t with a new entry of blank slots, one per language, at the end. */
  function AppendEntry(t: Table, key: string): (r: Table)
    ensures r.Languages == t.Languages
    ensures r.Entries == t.Entries + [Entry(key, Blank(|t.Languages|))]
  {
    Table(t.Languages, t.Entries + [Entry(key, Blank(|t.Languages|))])
  }

  lemma AppendEntryKeys(t: Table, key: string)
    ensures forall k :: HasKey(AppendEntry(t, key).Entries, k) <==> HasKey(t.Entries, k) || k == key
    ensures Consistent(t) && !HasKey(t.Entries, key) ==> Consistent(AppendEntry(t, key))
  {
    var r := AppendEntry(t, key);
    forall k ensures HasKey(r.Entries, k) <==> HasKey(t.Entries, k) || k == key {
      if HasKey(r.Entries, k) {
        var j :| 0 <= j < |r.Entries| && r.Entries[j].Key == k;
        if j < |t.Entries| { assert t.Entries[j].Key == k; }
      }
      if HasKey(t.Entries, k) {
        var j :| 0 <= j < |t.Entries| && t.Entries[j].Key == k;
        assert r.Entries[j].Key == k;
      }
      assert r.Entries[|t.Entries|].Key == key;
    }
  }

  /** RemoveEntry: an absent key leaves the table as it is; otherwise the
      entry and its slots are deleted, languages and other entries stay. */
  function RemoveEntry(t: Table, key: string): (r: Table)
    ensures !HasKey(t.Entries, key) ==> r == t
    ensures HasKey(t.Entries, key) ==> r.Entries == RemoveAt(t.Entries, EntryIndex(t.Entries, key))
    ensures r.Languages == t.Languages
    ensures forall e | e in t.Entries && e.Key != key :: e in r.Entries
    ensures forall e | e in r.Entries :: e in t.Entries
    ensures Consistent(t) ==> Consistent(r) && !HasKey(r.Entries, key)
  {
    var k := EntryIndex(t.Entries, key);
    if k == NotFound then t
    else
      DropEntryKeepsOthers(t.Entries, k);
      DropEntryKeepsConsistency(t, k);
      Table(t.Languages, RemoveAt(t.Entries, k))
  }

  /** Removing the entry at position k keeps every entry with another key
      and invents none. */
  lemma DropEntryKeepsOthers(es: seq<Entry>, k: nat)
    requires k < |es|
    ensures forall e | e in es && e.Key != es[k].Key :: e in RemoveAt(es, k)
    ensures forall e | e in RemoveAt(es, k) :: e in es
  {
    var r := RemoveAt(es, k);
    forall e | e in es && e.Key != es[k].Key ensures e in r {
      var j :| 0 <= j < |es| && es[j] == e;
      assert r[if j < k then j else j - 1] == e;
    }
    forall e | e in r ensures e in es {
      var j :| 0 <= j < |r| && r[j] == e;
      assert es[if j < k then j else j + 1] == e;
    }
  }

  /** Removing the entry at position k from a consistent table leaves a
      consistent table without that key. */
  lemma DropEntryKeepsConsistency(t: Table, k: nat)
    requires k < |t.Entries|
    ensures Consistent(t) ==>
      && Consistent(Table(t.Languages, RemoveAt(t.Entries, k)))
      && !HasKey(RemoveAt(t.Entries, k), t.Entries[k].Key)
  {
  }

  /** The positional write entry.Languages[slot] = text, through the entry
      with the given key. Without such an entry, or with slot out of range,
      the C# asset throws before anything changes, so the table is as before. */
  function SetText(t: Table, key: string, slot: nat, text: string): (r: Table)
    ensures r.Languages == t.Languages
    ensures |r.Entries| == |t.Entries|
    ensures forall k | 0 <= k < |t.Entries| ::
      r.Entries[k].Key == t.Entries[k].Key && |r.Entries[k].Values| == |t.Entries[k].Values|
    ensures var k := EntryIndex(t.Entries, key);
      if k != NotFound && slot < |t.Entries[k].Values| then
        && r.Entries[k].Values[slot] == text
        && (forall j | 0 <= j < |t.Entries[k].Values| && j != slot :: r.Entries[k].Values[j] == t.Entries[k].Values[j])
        && (forall k' | 0 <= k' < |t.Entries| && k' != k :: r.Entries[k'] == t.Entries[k'])
      else r == t
    ensures Consistent(t) ==> Consistent(r)
  {
    var k := EntryIndex(t.Entries, key);
    if k == NotFound || slot >= |t.Entries[k].Values| then t
    else
      var e := t.Entries[k];
      Table(t.Languages, t.Entries[k := e.(Values := e.Values[slot := text])])
  }
}
