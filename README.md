# Localisation table of the Game Framework asset

This project models `LocalisationData`, the localisation table of the Flip Web
Apps Game Framework for Unity. The table holds:

- an ordered list of languages whose names are unique;
- a list of localisation entries whose keys are unique.

Each entry carries one text slot per language, aligned by position with the
language list. Adding a language appends a blank slot to every entry.
Removing the language at position i deletes slot i from every entry, and the
later slots move down by one. Adding an entry to a table without languages
first creates the default language, "English". `InternalVerifyState()`
returns null when the table is consistent; the model takes any other
result to report one broken rule.

The implementation of `LocalisationData` is not part of this model. Its
contract comes from the asset's test suite,
`Scripts/Localisation/Editor/LocalisationTests.cs`, which all the citations
below point at.

The project has four modules:

- `Localisation` (`localisation.dfy`) describes the table as a value.
  - `Table` holds the languages and the entries.
  - `Consistent` is the invariant that `InternalVerifyState()` checks.
  - `Violation` names each of its diagnostics.
  - Every operation is a function on tables whose contract states its effect.
- `LocalisationObjects` (`localisation_data.dfy`) is the object layer that
  changes state in place.
  - `LocalisationEntry` has an immutable key and a mutable array of texts.
    The array `Values` stands for the C# field `entry.Languages`, which the
    tests index by language position.
  - `LocalisationData` has the language list, the entry objects, and the
    ghost fields `Contents` and `Repr`.
  - Every mutating method moves `Contents` exactly as the matching function
    of `Localisation` does, and keeps `Valid()`.
  - The lookups are loops, proved against the lookup functions.
- `LocalisationProperties` (`localisation_properties.dfy`) holds the
  properties that span several calls:
  - the insertion order of languages;
  - the add/remove round trips;
  - consistency of every table reachable from a fresh one;
  - a name or key never added is never found.
- `LocalisationScenarios` (`localisation_scenarios.dfy`) is a client of the
  class. From the contracts alone it replays three scenarios: adding a second
  entry keeps the first entry's texts, removing a language keeps the text
  for the other language, and removing an entry keeps the other entry
  objects in the table.

## Model

| member | source | states |
|---|---|---|
| Localisation.EmptyTable | Scripts/Localisation/Editor/LocalisationTests.cs:47-56 | A new table is consistent and holds no language and no entry. |
| LocalisationObjects.LocalisationData.constructor | Scripts/Localisation/Editor/LocalisationTests.cs:38-41 | A created table is valid, its footprint is fresh, and its contents are the empty table. |
| Localisation.AddLanguage | Scripts/Localisation/Editor/LocalisationTests.cs:63-76 | Afterwards the name is contained. The name set is the old set plus the name. Adding a present name changes nothing. A new name is appended to the unchanged language list, at the next position, and every entry keeps its key and its texts followed by one blank slot. Consistency is preserved. |
| LocalisationObjects.LocalisationData.AddLanguage | Scripts/Localisation/Editor/LocalisationTests.cs:63-76 | Moves the contents as `Localisation.AddLanguage`, keeps `Valid()`, keeps the same entry objects, and returns a language of the table with that name. |
| LocalisationProperties.AddLanguagesInOrder | Scripts/Localisation/Editor/LocalisationTests.cs:181-216 | Distinct names added to a fresh table give one language per name. GetLanguageIndex of the i-th name is i, and GetLanguage finds every name. |
| LocalisationProperties.AddLanguagesList | Scripts/Localisation/Editor/LocalisationTests.cs:78-95 | Distinct names added to a fresh table make up its language list, in insertion order, and the table is consistent. |
| LocalisationProperties.AddLanguagesContains | Scripts/Localisation/Editor/LocalisationTests.cs:97-112 | After any sequence of additions, duplicates included, the table contains exactly its old names and the added ones. |
| LocalisationObjects.LocalisationEntry.GrowSlot | Scripts/Localisation/Editor/LocalisationTests.cs:115-143 | An entry's texts become its old texts followed by one blank slot. |
| Localisation.LanguageIndex | Scripts/Localisation/Editor/LocalisationTests.cs:202-216 | The result lies between -1 and the language count. It is -1 exactly when the name is absent. Otherwise it is the first position holding the name. |
| LocalisationObjects.LocalisationData.GetLanguageIndex | Scripts/Localisation/Editor/LocalisationTests.cs:202-216 | The loop returns the index `Localisation.LanguageIndex` specifies and changes nothing. |
| Localisation.GetLanguage | Scripts/Localisation/Editor/LocalisationTests.cs:145-178 | Some exactly when the name is contained. The language returned has that name and belongs to the table. |
| LocalisationObjects.LocalisationData.GetLanguage | Scripts/Localisation/Editor/LocalisationTests.cs:145-178 | Returns what `Localisation.GetLanguage` specifies. A missing name gives None. |
| LocalisationObjects.LocalisationData.GetLanguages | Scripts/Localisation/Editor/LocalisationTests.cs:181-199 | Returns the table's languages in order. |
| LocalisationObjects.LocalisationData.ContainsLanguage | Scripts/Localisation/Editor/LocalisationTests.cs:292-322 | True exactly when some language has the name. |
| Localisation.RemoveLanguage | Scripts/Localisation/Editor/LocalisationTests.cs:218-251 | Removing an absent name changes nothing. When the name is first found at position i, the language list loses exactly position i, the others keeping their order, and every entry keeps its key and loses exactly slot i, its later slots moving down by one. Other names are kept. On a consistent table the name is gone and the table stays consistent. |
| LocalisationObjects.LocalisationData.RemoveLanguage | Scripts/Localisation/Editor/LocalisationTests.cs:218-251 | Moves the contents as `Localisation.RemoveLanguage`, keeps `Valid()`, and keeps the same entry objects. |
| LocalisationObjects.LocalisationEntry.DropSlot | Scripts/Localisation/Editor/LocalisationTests.cs:254-290 | An entry's texts become its old texts without slot i. |
| Localisation.DropLanguageKeepsOthers | Scripts/Localisation/Editor/LocalisationTests.cs:234-251 | Dropping the language at a position keeps every name held elsewhere in the list. |
| LocalisationProperties.AddThenRemoveLanguage | Scripts/Localisation/Editor/LocalisationTests.cs:254-290 | On a consistent table, adding a new language and then removing it restores the table exactly, the texts of every entry included. |
| Localisation.AddEntry | Scripts/Localisation/Editor/LocalisationTests.cs:328-391 | Afterwards the key is contained. The key set is the old set plus the key. Adding a present key changes nothing. A new key is appended with one blank slot per language, and the earlier entries keep their texts. A table without languages first gains "English", which gives each earlier entry one blank slot. Consistency is preserved. |
| LocalisationObjects.LocalisationData.AddEntry | Scripts/Localisation/Editor/LocalisationTests.cs:328-391 | Moves the contents as `Localisation.AddEntry` and keeps `Valid()`. Returns the entry object with the key: the existing one, or a fresh one appended to the entry list. |
| Localisation.AppendEntryKeys | Scripts/Localisation/Editor/LocalisationTests.cs:343-360 | Appending an entry with a new key adds exactly that key and keeps a consistent table consistent. |
| Localisation.EntryIndex | Scripts/Localisation/Editor/LocalisationTests.cs:394-408 | The result is -1 exactly when the key is absent. Otherwise it is the first position holding the key. |
| Localisation.GetEntry | Scripts/Localisation/Editor/LocalisationTests.cs:394-408 | Some exactly when the key is contained. The entry returned has that key and belongs to the table. |
| LocalisationObjects.LocalisationData.EntryPosition | Scripts/Localisation/Editor/LocalisationTests.cs:394-408 | The loop returns the position `Localisation.EntryIndex` specifies and changes nothing. |
| LocalisationObjects.LocalisationData.GetEntry | Scripts/Localisation/Editor/LocalisationTests.cs:394-408 | Returns null exactly when the key is absent. Otherwise it returns the table's entry object with that key, whose key and texts are what `Localisation.GetEntry` returns. |
| LocalisationObjects.LocalisationData.ContainsEntry | Scripts/Localisation/Editor/LocalisationTests.cs:445-475 | True exactly when some entry has the key. |
| Localisation.RemoveEntry | Scripts/Localisation/Editor/LocalisationTests.cs:410-424 | Removing an absent key changes nothing. Otherwise the entry at the key's first position leaves the list, and the other entries keep their order. The languages are kept, and no entry is invented. On a consistent table the key is gone and the table stays consistent. |
| LocalisationObjects.LocalisationData.RemoveEntry | Scripts/Localisation/Editor/LocalisationTests.cs:410-424 | Moves the contents as `Localisation.RemoveEntry`, keeps `Valid()`, and keeps the footprint. The entry list loses exactly the object at the key's position, so the other entry objects stay in the table in their order. |
| LocalisationProperties.AddThenRemoveEntry | Scripts/Localisation/Editor/LocalisationTests.cs:362-424 | On a consistent table, adding a new key and removing it again restores the table, except that a table without languages keeps the default language that AddEntry created. |
| Localisation.SetText | Scripts/Localisation/Editor/LocalisationTests.cs:125-131 | Writing a slot of an entry changes that slot only. Languages, keys, slot counts and other entries are kept, and consistency is preserved. A missing key or a slot out of range leaves the table unchanged. |
| LocalisationObjects.LocalisationData.SetValue | Scripts/Localisation/Editor/LocalisationTests.cs:268-274 | Writing slot i of an entry object moves the contents as `Localisation.SetText`, keeps `Valid()`, and keeps the entry list. |
| Localisation.Exhibits | Scripts/Localisation/Editor/LocalisationTests.cs:55 | A table that shows a violation is not consistent. |
| LocalisationObjects.LocalisationData.VerifyState | Scripts/Localisation/Editor/LocalisationTests.cs:55 | Returns None exactly when the table is consistent. Otherwise it returns a violation the table shows: a duplicate name, a duplicate key, or an entry whose slot count differs from the language count. |
| LocalisationProperties.RunKeepsConsistent | Scripts/Localisation/Editor/LocalisationTests.cs:289 | Every sequence of operations keeps a consistent table consistent, so `InternalVerifyState()` stays null. |
| LocalisationProperties.FreshTableStaysConsistent | Scripts/Localisation/Editor/LocalisationTests.cs:142 | Every table reachable from a fresh one is consistent. |
| LocalisationProperties.RunNeverAddedKey | Scripts/Localisation/Editor/LocalisationTests.cs:461-475 | A key that no operation added is not contained afterwards. |
| LocalisationProperties.RunNeverAddedLanguage | Scripts/Localisation/Editor/LocalisationTests.cs:308-322 | A name that no operation added is not contained afterwards. AddEntry counts as adding "English". |

## Left out

- The implementation of `LocalisationData` (the `GameFramework.Localisation.ObjectModel` namespace) is not part of this model. The contract modelled is the one the test suite asserts, completed by the invariant its `InternalVerifyState()` checks.
- The Unity asset lifecycle (`ScriptableObject.CreateInstance`), serialisation and the editor are out of scope. Creation is the class constructor.
- The `UNITY_5_0 || UNITY_5_1 || UNITY_5_2` compile switch and the NUnit test-case parameterisation are not modelled. The properties hold for all inputs rather than for the listed cases.
- The `PlaceHolder` test has only commented-out messenger code, so there is nothing to model.
- A language is a value identified by its name. Object identity of the C# `Language` instances is not modelled.
- New slots hold the empty string. What the C# table puts in a new slot is not visible in the tests, which only read slots after writing them.
- `InternalVerifyState()` returns a diagnostic message string. The model returns a `Violation` value naming the broken rule, not the text.
- `LocalisationObjects.LocalisationData.SetValue` requires the slot to be in range, because C# indexing of `entry.Languages[i]` out of range throws. `Localisation.SetText` leaves the table unchanged for such a slot.
- The lookup functions use -1 for a missing language or key (the C# index convention). No test exercises a missing name in `GetLanguageIndex`.
- `Localisation.AddEntry` looks for the key before it creates the default language. So adding a key that is already present never adds "English". That case arises only after every language has been removed from a table with entries, and no test covers it.
- The caller's direct write `entry.Languages[i] = text` is modelled as the table method `LocalisationObjects.LocalisationData.SetValue`, which writes the entry's array and updates the table's ghost contents with it. A client writing `e.Values` directly, outside the table, would break `Valid()`, so the model does not allow it.
