/** Clients of the LocalisationData class that replay scenarios of the
    asset's test suite; what they assert follows from the class's contracts
    alone. */
module LocalisationScenarios {
  import opened Localisation
  import opened LocalisationObjects

  /** A table with the languages English and French and the blank entry
      Key1. */
  method TwoLanguagesBlankEntry() returns (data: LocalisationData, e: LocalisationEntry)
    ensures data.Valid() && fresh(data.Repr)
    ensures e in data.entries && e.Key == "Key1" && e.Values.Length == 2
    ensures data.Contents == Table([Language("English"), Language("French")], [Entry("Key1", ["", ""])])
  {
    data := new LocalisationData();
    var english := data.AddLanguage("English");
    var french := data.AddLanguage("French");
    assert data.Contents.Languages == [Language("English"), Language("French")];
    e := data.AddEntry("Key1");
    assert |data.Contents.Entries| == 1;
    assert Blank(2) == ["", ""];
    assert data.Contents.Entries == [Entry("Key1", ["", ""])];
    assert data.entries[0] == e;
  }

  /** A table with the languages English and French and the entry Key1
      holding a text for each. */
  method TwoLanguagesOneEntry() returns (data: LocalisationData, e: LocalisationEntry)
    ensures data.Valid() && fresh(data.Repr)
    ensures data.Contents == Table([Language("English"), Language("French")],
                                   [Entry("Key1", ["Key1-English", "Key1-French"])])
  {
    data, e := TwoLanguagesBlankEntry();
    assert data.Contents.Entries[0].Key == "Key1";
    assert EntryIndex(data.Contents.Entries, "Key1") == 0;
    data.SetValue(e, 0, "Key1-English");
    assert data.Contents.Entries[0].Values == ["Key1-English", ""];
    assert data.Contents.Entries == [Entry("Key1", ["Key1-English", ""])];
    data.SetValue(e, 1, "Key1-French");
    assert data.Contents.Entries[0].Values == ["Key1-English", "Key1-French"];
  }

  /** Adding a second entry leaves the texts of the first one alone. */
  method AddEntryKeepsWrittenTexts()
  {
    var data, e := TwoLanguagesOneEntry();
    assert !HasKey(data.Contents.Entries, "Key2");
    var e2 := data.AddEntry("Key2");
    assert data.Contents.Entries[..1] == [Entry("Key1", ["Key1-English", "Key1-French"])];
    assert data.Contents.Entries[0] == Entry("Key1", ["Key1-English", "Key1-French"]);
  }

  /** Removing the first language leaves the entry exactly its text for the
      other language. */
  method RemoveLanguageKeepsOtherText()
  {
    var data, e := TwoLanguagesOneEntry();
    data.RemoveLanguage("English");
    assert data.Contents.Languages == [Language("French")];
    assert data.Contents.Entries[0].Values == ["Key1-French"];
    var found := data.GetEntry("Key1");
    assert found != null && found.Values[..] == ["Key1-French"];
  }

  /** Removing one entry leaves the object of another entry in the table,
      so a client holding it can still pass it to SetValue. */
  method RemoveEntryKeepsOtherHandles()
  {
    var data, e1, e2 := TwoEntries();
    data.RemoveEntry("Key1");
    assert data.entries == [e2];
  }

  /** A table with the entries Key1 and Key2, in that order. */
  method TwoEntries() returns (data: LocalisationData, e1: LocalisationEntry, e2: LocalisationEntry)
    ensures data.Valid() && fresh(data.Repr)
    ensures data.entries == [e1, e2]
    ensures EntryIndex(data.Contents.Entries, "Key1") == 0
  {
    data := new LocalisationData();
    e1 := data.AddEntry("Key1");
    assert data.Contents.Entries[0].Key == "Key1";
    e2 := data.AddEntry("Key2");
    assert data.Contents.Entries[0].Key == "Key1";
  }
}
