/** The LocalisationData asset as the mutable object it is: a list of
    languages and a list of entry objects, each entry owning an array of
    texts that callers write through directly. The ghost field Contents is
    the table as a value; every method is proved to move it exactly as the
    matching function of module Localisation does, and Valid() ties it to
    the real fields and arrays. */
module LocalisationObjects {
  import opened Localisation

  /** One localisation entry: its key, and one text per language. */
  class LocalisationEntry {
    const Key: string
    var Values: array<string>

    constructor (key: string, slots: nat)
      ensures Key == key && fresh(Values)
      ensures Values[..] == Blank(slots)
    {
      Key := key;
      Values := new string[slots](_ => BlankText);
    }

    /** Replaces Values by a copy with one more, blank, slot at the end. */
    method GrowSlot()
      modifies this
      ensures fresh(Values)
      ensures Values[..] == old(Values[..]) + [BlankText]
    {
      var grown := new string[Values.Length + 1];
      var j := 0;
      while j < Values.Length
        invariant 0 <= j <= Values.Length && Values == old(Values)
        invariant forall m | 0 <= m < j :: grown[m] == Values[m]
      {
        grown[j] := Values[j];
        j := j + 1;
      }
      grown[Values.Length] := BlankText;
      Values := grown;
    }

    /** Replaces Values by a copy without slot i; the later slots move down
        by one. */
    method DropSlot(i: nat)
      requires i < Values.Length
      modifies this
      ensures fresh(Values)
      ensures Values[..] == RemoveAt(old(Values[..]), i)
    {
      var shrunk := new string[Values.Length - 1];
      var j := 0;
      while j < shrunk.Length
        invariant 0 <= j <= shrunk.Length && Values == old(Values)
        invariant forall m | 0 <= m < j :: shrunk[m] == Values[if m < i then m else m + 1]
      {
        shrunk[j] := if j < i then Values[j] else Values[j + 1];
        j := j + 1;
      }
      Values := shrunk;
    }
  }

  class LocalisationData {
    var languages: seq<Language>
    var entries: seq<LocalisationEntry>

    /** The table as a value. */
    ghost var Contents: Table
    /** Every object the table has owned: this object, its entries and
        their value arrays, including removed entries and replaced arrays. */
    ghost var Repr: set<object>

    /** The fields hold exactly Contents, and no two entries share a value
        array (a write through one entry never shows in another). */
    ghost predicate WellFormed()
      reads this, Repr
    {
      && this in Repr
      && (forall k | 0 <= k < |entries| :: entries[k] in Repr && entries[k].Values in Repr)
      && languages == Contents.Languages
      && |entries| == |Contents.Entries|
      && (forall k | 0 <= k < |entries| ::
            entries[k].Key == Contents.Entries[k].Key && entries[k].Values[..] == Contents.Entries[k].Values)
      && (forall i, j | 0 <= i < j < |entries| :: entries[i].Values != entries[j].Values)
    }

    /** The object invariant: well formed, and InternalVerifyState() is null. */
    ghost predicate Valid()
      reads this, Repr
    {
      WellFormed() && Consistent(Contents)
    }

    constructor ()
      ensures Valid() && fresh(Repr)
      ensures Contents == EmptyTable()
    {
      languages := [];
      entries := [];
      Contents := EmptyTable();
      Repr := {this};
    }

    // -------------------------------------------------------------------
    // Queries: none of them changes anything.
    // -------------------------------------------------------------------

    /** GetLanguageIndex: the 0-based position of the language, or NotFound. */
    method GetLanguageIndex(name: string) returns (i: int)
      requires WellFormed()
      ensures i == LanguageIndex(Contents.Languages, name)
    {
      i := 0;
      while i < |languages|
        invariant 0 <= i <= |languages|
        invariant forall m | 0 <= m < i :: languages[m].Name != name
      {
        if languages[i].Name == name {
          return;
        }
        i := i + 1;
      }
      i := NotFound;
    }

    /** GetLanguage: the language with this name, if there is one. */
    method GetLanguage(name: string) returns (l: Option<Language>)
      requires WellFormed()
      ensures l == Localisation.GetLanguage(Contents, name)
    {
      var i := GetLanguageIndex(name);
      l := if i == NotFound then None else Some(languages[i]);
    }

    method ContainsLanguage(name: string) returns (b: bool)
      requires WellFormed()
      ensures b <==> HasLanguage(Contents.Languages, name)
    {
      var l := GetLanguage(name);
      b := l.Some?;
    }

    /** GetLanguages: the languages in index order. */
    method GetLanguages() returns (ls: seq<Language>)
      requires WellFormed()
      ensures ls == Contents.Languages
    {
      ls := languages;
    }

    /** The position of the entry with this key, or NotFound. */
    method EntryPosition(key: string) returns (k: int)
      requires WellFormed()
      ensures k == EntryIndex(Contents.Entries, key)
    {
      k := 0;
      while k < |entries|
        invariant 0 <= k <= |entries|
        invariant forall m | 0 <= m < k :: Contents.Entries[m].Key != key
      {
        if entries[k].Key == key {
          return;
        }
        k := k + 1;
      }
      k := NotFound;
    }

    /** GetEntry: the entry object with this key, or null. */
    method GetEntry(key: string) returns (e: LocalisationEntry?)
      requires WellFormed()
      ensures e == null <==> !HasKey(Contents.Entries, key)
      ensures e != null ==> e in entries && e.Key == key
      ensures Localisation.GetEntry(Contents, key) ==
              if e == null then None else Some(Entry(e.Key, e.Values[..]))
    {
      var k := EntryPosition(key);
      e := if k == NotFound then null else entries[k];
    }

    method ContainsEntry(key: string) returns (b: bool)
      requires WellFormed()
      ensures b <==> HasKey(Contents.Entries, key)
    {
      var e := GetEntry(key);
      b := e != null;
    }

    /** InternalVerifyState: nothing when the table is consistent, otherwise
        one defect it really has. */
    method VerifyState() returns (v: Option<Violation>)
      requires WellFormed()
      ensures v.None? <==> Consistent(Contents)
      ensures v.Some? ==> Exhibits(Contents, v.value)
    {
      var i := 0;
      while i < |languages|
        invariant 0 <= i <= |languages|
        invariant forall a, b | 0 <= a < i && a < b < |languages| :: languages[a].Name != languages[b].Name
      {
        var j := i + 1;
        while j < |languages|
          invariant i + 1 <= j <= |languages|
          invariant forall b | i < b < j :: languages[i].Name != languages[b].Name
        {
          if languages[i].Name == languages[j].Name {
            return Some(DuplicateLanguage(languages[i].Name));
          }
          j := j + 1;
        }
        i := i + 1;
      }
      i := 0;
      while i < |entries|
        invariant 0 <= i <= |entries|
        invariant forall a, b | 0 <= a < i && a < b < |entries| :: entries[a].Key != entries[b].Key
      {
        var j := i + 1;
        while j < |entries|
          invariant i + 1 <= j <= |entries|
          invariant forall b | i < b < j :: entries[i].Key != entries[b].Key
        {
          if entries[i].Key == entries[j].Key {
            return Some(DuplicateKey(entries[i].Key));
          }
          j := j + 1;
        }
        i := i + 1;
      }
      i := 0;
      while i < |entries|
        invariant 0 <= i <= |entries|
        invariant forall a | 0 <= a < i :: entries[a].Values.Length == |languages|
      {
        if entries[i].Values.Length != |languages| {
          return Some(SlotCountMismatch(entries[i].Key, entries[i].Values.Length, |languages|));
        }
        i := i + 1;
      }
      v := None;
    }

    // -------------------------------------------------------------------
    // Mutations
    // -------------------------------------------------------------------

    /** AddLanguage: returns the language with this name; when there was
        none, appends it and grows every entry's array by one blank slot. */
    method AddLanguage(name: string) returns (lang: Language)
      requires Valid()
      modifies this, entries
      ensures Valid() && fresh(Repr - old(Repr))
      ensures entries == old(entries)
      ensures Contents == Localisation.AddLanguage(old(Contents), name)
      ensures lang in languages && lang.Name == name
    {
      var i := GetLanguageIndex(name);
      if i != NotFound {
        lang := languages[i];
        return;
      }
      GrowSlots();
      lang := Language(name);
      languages := languages + [lang];
      Contents := Localisation.AddLanguage(Contents, name);
    }

    /** RemoveLanguage: when the language is present at index i, removes it
        and shrinks every entry's array by dropping slot i. */
    method RemoveLanguage(name: string)
      requires Valid()
      modifies this, entries
      ensures Valid() && fresh(Repr - old(Repr))
      ensures entries == old(entries)
      ensures Contents == Localisation.RemoveLanguage(old(Contents), name)
    {
      var i := GetLanguageIndex(name);
      if i == NotFound {
        return;
      }
      ShrinkSlots(i);
      languages := RemoveAt(languages, i);
      Contents := Localisation.RemoveLanguage(Contents, name);
    }

    /** AddEntry: returns the entry with this key; when there was none,
        creates the default language if the table has no language, then
        appends a new entry with one blank slot per language. */
    method AddEntry(key: string) returns (e: LocalisationEntry)
      requires Valid()
      modifies this, entries
      ensures Valid() && fresh(Repr - old(Repr))
      ensures Contents == Localisation.AddEntry(old(Contents), key)
      ensures e in entries && e.Key == key
      ensures old(HasKey(Contents.Entries, key)) ==> e in old(entries) && entries == old(entries)
      ensures !old(HasKey(Contents.Entries, key)) ==> fresh(e) && entries == old(entries) + [e]
    {
      var found := GetEntry(key);
      if found != null {
        return found;
      }
      e := AddNewEntry(key);
    }

    /** AddEntry for a key the table does not hold yet. */
    method AddNewEntry(key: string) returns (e: LocalisationEntry)
      requires Valid() && !HasKey(Contents.Entries, key)
      modifies this, entries
      ensures Valid() && fresh(Repr - old(Repr))
      ensures Contents == Localisation.AddEntry(old(Contents), key)
      ensures fresh(e) && e.Key == key && entries == old(entries) + [e]
    {
      EnsureLanguage();
      AppendEntryKeys(Contents, key);
      e := AppendEntry(key);
    }

    /** The first step of AddEntry: a table without languages gains the
        default one. */
    method EnsureLanguage()
      requires Valid()
      modifies this, entries
      ensures Valid() && fresh(Repr - old(Repr))
      ensures entries == old(entries)
      ensures Contents ==
        if old(Contents.Languages) == [] then Localisation.AddLanguage(old(Contents), DefaultLanguageName)
        else old(Contents)
      ensures forall k :: HasKey(Contents.Entries, k) <==> old(HasKey(Contents.Entries, k))
    {
      if |languages| == 0 {
        ghost var t0 := Contents;
        var english := AddLanguage(DefaultLanguageName);
        forall k ensures HasKey(Contents.Entries, k) <==> HasKey(t0.Entries, k) {
          if HasKey(Contents.Entries, k) {
            var j :| 0 <= j < |Contents.Entries| && Contents.Entries[j].Key == k;
            assert t0.Entries[j].Key == k;
          }
          if HasKey(t0.Entries, k) {
            var j :| 0 <= j < |t0.Entries| && t0.Entries[j].Key == k;
            assert Contents.Entries[j].Key == k;
          }
        }
      }
    }

    /** Appends a new entry with one blank slot per language. */
    method AppendEntry(key: string) returns (e: LocalisationEntry)
      requires WellFormed()
      modifies this
      ensures WellFormed() && fresh(Repr - old(Repr))
      ensures Contents == Localisation.AppendEntry(old(Contents), key)
      ensures fresh(e) && e.Key == key && entries == old(entries) + [e]
    {
      e := new LocalisationEntry(key, |languages|);
      entries := entries + [e];
      Repr := Repr + {e, e.Values};
      Contents := Localisation.AppendEntry(Contents, key);
    }

    /** RemoveEntry: deletes the entry with this key, if there is one. */
    method RemoveEntry(key: string)
      requires Valid()
      modifies this
      ensures Valid() && Repr == old(Repr)
      ensures Contents == Localisation.RemoveEntry(old(Contents), key)
      ensures var k := old(EntryIndex(Contents.Entries, key));
        entries == if k == NotFound then old(entries) else RemoveAt(old(entries), k)
    {
      var k := EntryPosition(key);
      if k != NotFound {
        ghost var before := Contents.Entries;
        ghost var objects := entries;
        entries := RemoveAt(entries, k);
        Contents := Localisation.RemoveEntry(Contents, key);
        assert Contents.Entries == RemoveAt(before, k);
        forall m | 0 <= m < |entries|
          ensures entries[m].Key == Contents.Entries[m].Key && entries[m].Values[..] == Contents.Entries[m].Values
        {
          var src := if m < k then m else m + 1;
          assert entries[m] == objects[src] && Contents.Entries[m] == before[src];
        }
      }
    }

    /** The caller's write entry.Languages[slot] = text, through an entry
        object of this table. */
    method SetValue(e: LocalisationEntry, slot: nat, text: string)
      requires Valid()
      requires e in entries && slot < e.Values.Length
      modifies this, e.Values
      ensures Valid() && Repr == old(Repr) && entries == old(entries)
      ensures Contents == SetText(old(Contents), e.Key, slot, text)
    {
      e.Values[slot] := text;
      Contents := SetText(Contents, e.Key, slot, text);
    }

    /** Replaces every entry's value array by a copy with one more, blank,
        slot at the end. */
    method GrowSlots()
      requires WellFormed()
      modifies this, entries
      ensures languages == old(languages) && entries == old(entries) && Contents == old(Contents)
      ensures this in Repr && old(Repr) <= Repr && fresh(Repr - old(Repr))
      ensures forall m | 0 <= m < |entries| :: entries[m] in Repr && entries[m].Values in Repr
      ensures forall m | 0 <= m < |entries| :: entries[m].Values[..] == Contents.Entries[m].Values + [BlankText]
      ensures forall m, n | 0 <= m < n < |entries| :: entries[m].Values != entries[n].Values
    {
      var k := 0;
      while k < |entries|
        invariant 0 <= k <= |entries|
        invariant languages == old(languages) && entries == old(entries) && Contents == old(Contents)
        invariant this in Repr && old(Repr) <= Repr && fresh(Repr - old(Repr))
        invariant forall m | 0 <= m < |entries| :: entries[m] in Repr && entries[m].Values in Repr
        invariant forall m | 0 <= m < |entries| ::
          entries[m].Values[..] == if m < k then Contents.Entries[m].Values + [BlankText] else Contents.Entries[m].Values
        invariant forall m, n | 0 <= m < n < |entries| :: entries[m].Values != entries[n].Values
      {
        entries[k].GrowSlot();
        Repr := Repr + {entries[k].Values};
        k := k + 1;
      }
    }

    /** Replaces every entry's value array by a copy without slot i. */
    method ShrinkSlots(i: nat)
      requires WellFormed()
      requires forall m | 0 <= m < |Contents.Entries| :: i < |Contents.Entries[m].Values|
      modifies this, entries
      ensures languages == old(languages) && entries == old(entries) && Contents == old(Contents)
      ensures this in Repr && old(Repr) <= Repr && fresh(Repr - old(Repr))
      ensures forall m | 0 <= m < |entries| :: entries[m] in Repr && entries[m].Values in Repr
      ensures forall m | 0 <= m < |entries| :: entries[m].Values[..] == RemoveAt(Contents.Entries[m].Values, i)
      ensures forall m, n | 0 <= m < n < |entries| :: entries[m].Values != entries[n].Values
    {
      var k := 0;
      while k < |entries|
        invariant 0 <= k <= |entries|
        invariant languages == old(languages) && entries == old(entries) && Contents == old(Contents)
        invariant this in Repr && old(Repr) <= Repr && fresh(Repr - old(Repr))
        invariant forall m | 0 <= m < |entries| :: entries[m] in Repr && entries[m].Values in Repr
        invariant forall m | 0 <= m < |entries| ::
          entries[m].Values[..] == if m < k then RemoveAt(Contents.Entries[m].Values, i) else Contents.Entries[m].Values
        invariant forall m, n | 0 <= m < n < |entries| :: entries[m].Values != entries[n].Values
      {
        entries[k].DropSlot(i);
        Repr := Repr + {entries[k].Values};
        k := k + 1;
      }
    }
  }
}
