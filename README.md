# MechTemp.Mikro core, modelled in Dafny

MechTemp.Mikro is a console mech-template builder. A template is a tree of
parts. Top-level parts are stored under the keys `Part_<id>`, every part may
own an ordered `children` list, and a counter in the template manager hands
out the PartIDs. Around the tree sit small managers, each backed by a JSON
text file:

- a part catalog (`Parts.txt`);
- the weight statistics of a template;
- a case-insensitive set of researched parts with its defaults;
- tag and action description tables;
- the player's gold;
- a list of buildings;
- a folder of saved templates;
- the console navigator that walks the tree and adds parts to it.

The model is split into one module per source file, plus shared modules:

| module | file | models |
|---|---|---|
| `Wrappers` | wrappers.dfy | `Option` |
| `Text` | text.dfy | the .NET string operations the code depends on: `IsNullOrWhiteSpace`, `Trim`, `ToLower`/`OrdinalIgnoreCase`, `Contains`, `EndsWith`, Int32 formatting and `int.TryParse` |
| `PartTree` | tree.dfy | the typed part tree, paths into it, `FindPartByID` and the append operations, plus the tree invariant (keys match ids, ids issued by the counter and unique) |
| `Templates` | templates.dfy | `Templatemanager` as a class with `managedTemplate` and `IDCounter` fields |
| `PartCatalog` | catalog.dfy | `PartManager`'s queries and its `_parts` cache |
| `Stats` | stats.dfy | `StatCalc`: the weight limit and the recursive weight, each method paired with a recursive function |
| `NameLists` | names.dfy | the non-blank-items-or-fallback rule used for the building list and for the default research list |
| `Research` | research.dfy | `ResearchManager`: the name set, its file and its sorted views |
| `Tables` | tables.dfy | the name-to-description table loader shared by tags and actions |
| `Tags` | tags.dfy | `TagsManager`: the base-name pattern and the description lookup |
| `Actions` | actions.dfy | `ActionsManager` |
| `Resources` | resources.dfy | `ResourceManager`: the gold counter with Int32 wrap-around |
| `Buildings` | buildings.dfy | `BuildingManager`'s fallbacks |
| `Persistency` | persistency.dfy | the `.json` name rule, with save, load and delete over a map-valued folder |
| `Navigation` | navigator.dfy | `GetChildParts` and the state changes of `NavigationStep` |

Files are modelled as inputs or as fields holding what the file contains.
There are several kinds:

- a catalog that is missing or present, with records whose `name` and `type` are optional;
- a list file that is missing, not an array, unreadable, or a list of optional strings;
- a record file of optional `name`/`description` pairs;
- a resources file;
- a map from file name to stored template.

A write that can fail without an exception escaping takes a `writeSucceeds`
parameter, and so does the research file's write, whose exception escapes
after the cache has changed. Code that does not
appear in these files is passed in as a function-typed parameter:

- `PartManager.GetPartDefinition` becomes `Definitions`;
- `PartManager.GetWeightForPart` becomes `WeightFormula`;
- the culture ordering of `OrderBy` becomes a total preorder `le`.

The root rule is meant to allow one frame part. The code decides "frame" by
whether the part's lower-cased name contains `frame` (TemplateMenager.cs:45),
not by its catalog type. The model follows the code. `Templates.IsFrameNamed` is
that test, and `Templates.FrameNameExamples` shows a part named `Gun` that is not a frame.

## Model

| member | source | states |
|---|---|---|
| `Text.SkipWhiteSpace` | Managers/TagsManager.cs:60-62 | the front scan of `Trim` stops at the end or at the first non-white character at or after the start |
| `Text.SkippedWhite` | Managers/TagsManager.cs:60-62 | every character the front scan passes over is white space |
| `Text.BackOverWhiteSpace` | Managers/TagsManager.cs:60-62 | the back scan of `Trim` stops at the start or just after a non-white character |
| `Text.BackedWhite` | Managers/TagsManager.cs:60-62 | every character the back scan passes over is white space |
| `Text.IsNullOrWhiteSpace` | Managers/ResearchManager.cs:64 | `string.IsNullOrWhiteSpace`: null and the empty string are blank, and a string whose first or last character is not white space is not |
| `Text.Trim` | Managers/TagsManager.cs:60-62 | `string.Trim`: the result is no longer than the input and neither starts nor ends with white space |
| `Text.TrimParts` | Managers/TagsManager.cs:60-62 | every string is blank padding, then `Trim` of it, then blank padding, and the trimmed text neither starts nor ends with white space |
| `Text.TrimCore` | Managers/TagsManager.cs:60-62 | conversely, the core between blank paddings whose ends are not white is exactly what `Trim` returns |
| `Text.TrimPadded` | Managers/TagsManager.cs:60-62 | adding blank padding on either side does not change the trimmed result |
| `Text.TrimUnchanged` | Managers/TagsManager.cs:62 | a non-empty string with non-white ends is its own trim |
| `Text.Lower` | TemplateMenager.cs:45 | lower-casing keeps the length and lower-cases each character |
| `Text.LowerAppend` | TemplateMenager.cs:45 | lower-casing distributes over concatenation |
| `Text.LowerIdempotent` | TemplateMenager.cs:45 | lower-casing twice is lower-casing once |
| `Text.EqualsIgnoreCase` | PartManager.cs:27 | `OrdinalIgnoreCase` equality: equal strings are equal ignoring case, and strings equal ignoring case have the same length |
| `Text.EndsWithIgnoreCase` | PersistencyManager.cs:36 | `EndsWith` with `OrdinalIgnoreCase`: a string ends with a suffix ignoring case only when the suffix is no longer than the string |
| `Text.EndsWithAppended` | PersistencyManager.cs:36 | a string with a suffix appended ends with that suffix, ignoring case |
| `Text.IndexOf` | Managers/TagsManager.cs:57 | the result is the first position holding the character, or none when it never occurs |
| `Text.IndexOfFirst` | Managers/TagsManager.cs:57 | a position with the character and none before it is what `IndexOf` returns |
| `Text.NatToString` | TemplateMenager.cs:76 | a number's decimal text is non-empty and made only of digits |
| `Text.DigitsRoundTrip` | TemplateMenager.cs:76 | reading a number's decimal text gives the number back |
| `Text.NatToStringInjective` | TemplateMenager.cs:76 | different numbers have different decimal texts |
| `Text.IntToString` | ResourceManager.cs:84-94 | `Int32.ToString`: non-empty text that starts with a minus sign exactly when the number is negative |
| `Text.ParseInt32` | ResourceManager.cs:58 | `int.TryParse`: blank text fails, and a negative result comes only from text whose first non-blank character is a minus sign |
| `Text.Wrap32` | ResourceManager.cs:113 | a sum wrapped to Int32 agrees with the exact sum modulo 2^32 and equals it when it is in range |
| `Text.ParseFormatRoundTrip` | ResourceManager.cs:58 | `int.TryParse` of an Int32's text gives that Int32 back |
| `PartTree.Nodes` | TemplateMenager.cs:73-78 | the top-level parts in key order |
| `PartTree.PartKeyInjective` | TemplateMenager.cs:76 | different PartIDs give different `Part_<id>` keys |
| `PartTree.ValidInExtend` | TemplateMenager.cs:113-134 | a path one step longer is valid exactly when the step is within that part's children, and it reaches that child |
| `PartTree.ValidPathExtend` | TemplateMenager.cs:113-134 | the same for paths that start at a top-level part |
| `PartTree.FindInNodeCorrect` | TemplateMenager.cs:107-136 | the search below a part returns the first path, in depth-first order, whose PartID text equals the query, or none when no path matches |
| `PartTree.FindInCorrect` | TemplateMenager.cs:113-134 | the same for the top-level parts from a given index on |
| `PartTree.FindPartByID` | TemplateMenager.cs:107-136 | a found path is valid, its PartID text is the query, and no path visited before it matches; none is found exactly when no part has that PartID |
| `PartTree.AppendIn` | TemplateMenager.cs:83-93 | appending below a part keeps that part's name, PartID and properties |
| `PartTree.AppendInKeeps` | TemplateMenager.cs:83-93 | after an append every old path is still valid and keeps its part's name, PartID and properties; parts not above the parent are unchanged |
| `PartTree.AppendInAt` | TemplateMenager.cs:87-92 | the parent's children become the old children followed by the new part, which is reachable at the next index |
| `PartTree.AppendInOnly` | TemplateMenager.cs:87-92 | the only new path is the new child's |
| `PartTree.AppendChild` | TemplateMenager.cs:83-93 | appending a child below a part changes only the top-level entry the path starts at and keeps every key |
| `PartTree.AppendChildNodes` | TemplateMenager.cs:83-93 | appending a child changes only the top-level part the path starts at |
| `PartTree.AppendChildEffect` | TemplateMenager.cs:83-93 | after a child add, the keys and the other top-level entries are unchanged, and the parent's children are the old ones plus the new part at the end |
| `PartTree.AppendChildKeeps` | TemplateMenager.cs:83-93 | every old path is still valid with the same PartID and name; parts not above the parent are unchanged |
| `PartTree.AppendChildOnly` | TemplateMenager.cs:83-93 | a childless new part adds exactly one new path |
| `PartTree.KeyIndex` | TemplateMenager.cs:76 | the position of a root key, or none when no entry has it |
| `PartTree.SetKey` | TemplateMenager.cs:76 | storing under a key absent from the root appends a new entry at the end |
| `PartTree.RootAppendPaths` | TemplateMenager.cs:73-78 | a root add keeps every old path and its part, and adds only the new top-level path |
| `PartTree.EmptyWellFormed` | TemplateMenager.cs:14-18 | the empty template satisfies the tree invariant for any counter |
| `PartTree.FreshKey` | TemplateMenager.cs:69-77 | in a well-formed tree no root key equals the key of the next PartID, so a root add never overwrites |
| `PartTree.RootAddWellFormed` | TemplateMenager.cs:69-78 | a root add of the next PartID keeps the tree invariant with the advanced counter |
| `PartTree.ChildAddWellFormed` | TemplateMenager.cs:69-93 | a child add of the next PartID keeps the tree invariant with the advanced counter |
| `PartTree.FindsOwnPart` | TemplateMenager.cs:107-136 | in a well-formed tree, searching for a part's own PartID finds that part |
| `Templates.IsFrameNamed` | TemplateMenager.cs:44-45 | the root rule's frame test: a frame-named part has a name, at least five characters long |
| `Templates.FrameNameExamples` | TemplateMenager.cs:45 | a name containing `Frame` in any case counts as a frame; `Gun` does not |
| `Templates.ShortNameNoFrame` | TemplateMenager.cs:45 | a name shorter than five characters never counts as a frame |
| `Templates.NamedWithFrame` | TemplateMenager.cs:45 | any name with `Frame` inside contains `frame` once lower-cased |
| `Templates.TemplateManager.constructor` | TemplateMenager.cs:8-9 | the manager starts with no template and the counter at 0 |
| `Templates.TemplateManager.CreateBlankTemplate` | TemplateMenager.cs:14-18 | the template becomes empty and the counter is not reset |
| `Templates.TemplateManager.GetTemplate` | TemplateMenager.cs:24-27 | returns the managed template |
| `Templates.TemplateManager.CanAdd` | TemplateMenager.cs:34-58 | with a parent it is always true; at the root it is true exactly when no top-level part's name contains `frame` ignoring case |
| `Templates.TemplateManager.AddPart` | TemplateMenager.cs:66-99 | the counter advances by one and the new PartID is returned; a root add appends the part under `Part_<id>`; a child add appends it last below the first part with that PartID; an unknown parent leaves the tree unchanged while the counter still advances; the tree invariant is kept |
| `Templates.AddPartScenario` | TemplateMenager.cs:34-99 | from a fresh manager the first two parts get PartIDs 1 and 2; with a frame-named part at the root the root is closed, while a part can still be added below it |
| `PartCatalog.NamesOfType` | PartManager.cs:24-31 | the names listed for a type are no more than the catalog's entries |
| `PartCatalog.TypeSet` | PartManager.cs:67-77 | the category set holds every non-empty type of the catalog and no empty one |
| `PartCatalog.AllNames` | PartManager.cs:113-117 | the available names are at most as many as the catalog entries |
| `PartCatalog.PartsOfType` | PartManager.cs:15-35 | there are no names without a catalog, and at most one per entry with one |
| `PartCatalog.TypeFor` | PartManager.cs:81-98 | a type is found only for a non-empty name in a present catalog, and it is the type of an entry with that name ignoring case |
| `PartCatalog.FirstNamed` | PartManager.cs:87-96 | the first catalog entry whose name equals the query ignoring case, or none when no entry does |
| `PartCatalog.NamesOfTypeMembers` | PartManager.cs:24-31 | a name is listed for a type exactly when some entry of that type, ignoring case, carries it |
| `PartCatalog.NamesOfTypeIgnoresCase` | PartManager.cs:27 | types that differ only in case list the same names |
| `PartCatalog.AllNamesMembers` | PartManager.cs:113-117 | a name is available exactly when some entry carries it |
| `PartCatalog.TypedPartsAvailable` | PartManager.cs:24-31 | every part listed under a type is also an available part |
| `PartCatalog.PartManager.constructor` | PartManager.cs:11-12 | the manager starts with the catalog and an empty cache |
| `PartCatalog.PartManager.GetPartsByType` | PartManager.cs:15-35 | the names of the entries of that type, in catalog order, or none without a catalog |
| `PartCatalog.PartManager.GetPartsByCategory` | PartManager.cs:38-58 | the same list `GetPartsByType` gives for the same argument |
| `PartCatalog.PartManager.GetAllCategories` | PartManager.cs:61-78 | without a catalog, nothing; otherwise every non-empty type exactly once and nothing else |
| `PartCatalog.PartManager.GetTypeForName` | PartManager.cs:81-98 | the type of the first entry with that name ignoring case; none for an empty name, no catalog or no match |
| `PartCatalog.PartManager.GetAvailableParts` | PartManager.cs:100-121 | a filled cache is returned unchanged; otherwise all names in catalog order, cached only when the catalog exists |
| `Stats.WeightLimitOf` | StatCalc.cs:26-53 | a non-zero limit is the `WeightLimit` of some top-level part |
| `Stats.PartLimit` | StatCalc.cs:30-45 | a top-level part sets a limit only when it has a non-empty name, a catalog type of Frame and a definition with a `WeightLimit` |
| `Stats.OwnWeight` | StatCalc.cs:92-103 | a part weighs something itself only when it has a non-empty name and `Scale` and its catalog type is not Frame |
| `Stats.ScaleOf` | StatCalc.cs:92 | the `Scale` text is present exactly when the part has that property, and it is that property's text |
| `Stats.NodeWeight` | StatCalc.cs:87-119 | a childless part weighs its own weight |
| `Stats.ForestWeight` | StatCalc.cs:107-118 | a single part weighs what `NodeWeight` gives it; the full sum is stated in `ForestWeightIsSum` |
| `Stats.TotalWeightOf` | StatCalc.cs:62-79 | no template or an empty template weighs 0, and a one-part template weighs that part |
| `Stats.GetWeightLimit` | StatCalc.cs:20-54 | 0 for no template; otherwise the weight limit the top-level parts give |
| `Stats.WeightLimitFirst` | StatCalc.cs:26-53 | the limit is that of the first top-level part that is a catalog Frame with an integer `WeightLimit`, or 0 when there is no such part |
| `Stats.WeightLimitTopLevelOnly` | StatCalc.cs:26-28 | the limit depends only on the names of the top-level parts, so nested frames never affect it |
| `Stats.CalculatePartWeight` | StatCalc.cs:87-119 | the recursive weight of the part |
| `Stats.CalculateTotalWeight` | StatCalc.cs:62-79 | the sum of the top-level parts' weights; 0 for no template |
| `Stats.SumOwnAppend` | StatCalc.cs:107-118 | own weights add up over concatenated part lists |
| `Stats.NodeWeightIsSum` | StatCalc.cs:87-119 | a part's weight is the sum of the own weights of the part and all its descendants, in depth-first order |
| `Stats.ForestWeightIsSum` | StatCalc.cs:107-118 | the weight of a list of parts is the sum of own weights over all of their subtrees |
| `Stats.TotalWeightIsSum` | StatCalc.cs:62-79 | a template's weight is the sum of own weights over every part in it, and 0 for no template |
| `Stats.FrameWeighsItsChildren` | StatCalc.cs:95-118 | a part of catalog type Frame adds nothing of its own, but its children still count |
| `Stats.UnscaledWeighsItsChildren` | StatCalc.cs:93-118 | a part without a name or a non-empty `Scale` adds nothing of its own, but its children still count |
| `Stats.ChildlessFrameWeighsNothing` | StatCalc.cs:89-103 | a childless frame weighs 0 |
| `Stats.ChildlessFramesWeighNothing` | StatCalc.cs:67-78 | a list of childless frames, including the empty list, weighs 0 |
| `Stats.WeightlessForest` | StatCalc.cs:67-78 | parts that each weigh 0 weigh 0 together |
| `NameLists.NonBlank` | Managers/BuildingManager.cs:39-47 | the kept items are at most as many as the file's, and none is blank |
| `NameLists.NonBlankMembers` | Managers/BuildingManager.cs:40-46 | a name is kept exactly when it is not blank and the file holds it |
| `NameLists.AsItems` | Managers/ResearchManager.cs:47-55 | writing names as a list gives one item per name, in order |
| `NameLists.NonBlankAsItems` | Managers/ResearchManager.cs:47-55 | non-blank names written as a list read back as the same names |
| `NameLists.ListOrFallbackNonEmpty` | Managers/BuildingManager.cs:48 | with a non-empty fallback the result is never empty |
| `NameLists.ListOrFallback` | Managers/BuildingManager.cs:28-54 | the result is the fallback, or a non-empty list of non-blank names no longer than the file; a file that is not a list always gives the fallback |
| `NameLists.ListOrFallbackCases` | Managers/BuildingManager.cs:28-54 | a missing file, a non-array file or a file with only blank items gives the fallback; otherwise the non-blank items in file order |
| `NameLists.CollectNonBlank` | Managers/BuildingManager.cs:39-47 | the loop collects the non-blank items in order |
| `NameLists.ReadList` | Managers/ResearchManager.cs:101-137 | the list read is the non-blank items, or the fallback when there are none |
| `Research.AddName` | Managers/ResearchManager.cs:66 | `HashSet.Add`: the set grows by at most the one name, at the end, and is unchanged exactly when it already holds the name ignoring case |
| `Research.RemoveName` | Managers/ResearchManager.cs:76 | `HashSet.Remove`: the set never grows |
| `Research.AddNameMembers` | Managers/ResearchManager.cs:62-70 | after adding, a name is held exactly when it was held or equals the added one, ignoring case |
| `Research.AddNameKeeps` | Managers/ResearchManager.cs:62-70 | adding a non-blank name keeps the set distinct ignoring case and free of blanks |
| `Research.AddAll` | Managers/ResearchManager.cs:28-35 | adding a list of names keeps the old set as a prefix and grows it by at most one name per listed name |
| `Research.RemoveNameExact` | Managers/ResearchManager.cs:72-80 | after removing, an exact spelling is held exactly when it was held and does not equal the removed name ignoring case |
| `Research.RemoveNameMembers` | Managers/ResearchManager.cs:72-80 | after removing, a name is held ignoring case exactly when it was held and is not the removed one |
| `Research.RemoveNameKeeps` | Managers/ResearchManager.cs:72-80 | removing keeps the set distinct and free of blanks |
| `Research.AddAllMembers` | Managers/ResearchManager.cs:28-35 | after adding a list, a name is held exactly when it was held or is in the list |
| `Research.AddAllKeeps` | Managers/ResearchManager.cs:28-35 | adding non-blank names keeps the set distinct and free of blanks |
| `Research.AddAllDistinct` | Managers/ResearchManager.cs:140-146 | adding names that are already distinct ignoring case keeps them all, in order |
| `Research.LoadedIsNameSet` | Managers/ResearchManager.cs:16-45 | what a research file loads is a distinct set of non-blank names |
| `Research.SaveLoadRoundTrip` | Managers/ResearchManager.cs:16-55 | a saved set loads back as the same set, in the same order |
| `Research.Insert` | Managers/ResearchManager.cs:84 | inserting one name keeps every name and adds that one |
| `Research.InsertBounded` | Managers/ResearchManager.cs:84 | a lower bound of the list and of the name bounds the result |
| `Research.InsertSorted` | Managers/ResearchManager.cs:84 | inserting into a sorted list gives a sorted list |
| `Research.SortBy` | Managers/ResearchManager.cs:84 | the sorted view is sorted and a permutation of the set |
| `Research.SortByMembers` | Managers/ResearchManager.cs:84 | sorting keeps exactly the names it was given |
| `Research.Unresearched` | Managers/ResearchManager.cs:91 | the unresearched names are at most as many as the listed ones, and none is held ignoring case |
| `Research.UnresearchedMembers` | Managers/ResearchManager.cs:91 | a part is unresearched exactly when it is listed and not held ignoring case |
| `Research.ResearchManager.constructor` | Managers/ResearchManager.cs:12-14 | the manager starts with its files and an empty cache |
| `Research.ResearchManager.Load` | Managers/ResearchManager.cs:16-45 | the set is what the file holds, or empty without a readable list; it is then cached |
| `Research.ResearchManager.Save` | Managers/ResearchManager.cs:47-55 | the set is loaded and cached; the file is rewritten with its names, or left as it was when the write fails |
| `Research.ResearchManager.IsResearched` | Managers/ResearchManager.cs:57-60 | true exactly when the set holds the name ignoring case |
| `Research.ResearchManager.Research` | Managers/ResearchManager.cs:62-70 | a blank name changes nothing; otherwise the name is added, and the file is written only when the set changed; a failed write leaves the grown cache and the old file |
| `Research.ResearchManager.Unresearch` | Managers/ResearchManager.cs:72-80 | a blank name changes nothing; otherwise the name is removed, and the file is written only when the set changed; a failed write leaves the shrunk cache and the old file |
| `Research.ResearchManager.GetResearched` | Managers/ResearchManager.cs:82-85 | the set, sorted |
| `Research.ResearchManager.GetUnresearchedParts` | Managers/ResearchManager.cs:87-92 | the available parts not in the set, sorted |
| `Research.ResearchManager.GetUnresearchedByCategory` | Managers/ResearchManager.cs:94-99 | the parts of that category not in the set, sorted |
| `Research.ResearchManager.ReadDefaults` | Managers/ResearchManager.cs:101-137 | the non-blank items of the defaults file, or the eight built-in names |
| `Research.ResearchManager.ApplyDefaultsOnStart` | Managers/ResearchManager.cs:140-146 | the set is replaced by the defaults, whatever it held, and saved unless the write fails |
| `Research.DefaultResearchNonBlank` | Managers/ResearchManager.cs:104-115 | none of the built-in default names is blank |
| `Research.NothingToRemove` | Managers/ResearchManager.cs:76-79 | removing a name the set does not hold changes nothing, so nothing is saved |
| `Research.ResearchEffect` | Managers/ResearchManager.cs:57-70 | after researching `x`, `x` is researched in any casing and no other membership changes |
| `Research.ResearchIdempotent` | Managers/ResearchManager.cs:66-69 | researching the same name twice is researching it once |
| `Research.UnresearchEffect` | Managers/ResearchManager.cs:57-80 | after unresearching `x`, `x` is not researched and no other membership changes |
| `Research.DefaultsEffect` | Managers/ResearchManager.cs:140-146 | after the defaults are applied, exactly the default names are researched |
| `Research.UnresearchedViewMembers` | Managers/ResearchManager.cs:87-99 | the sorted unresearched view holds exactly the listed parts not in the set |
| `Tables.TableKeys` | Managers/TagsManager.cs:27-35 | a key is in the table exactly when some record with a non-blank name folds to it |
| `Tables.TableOf` | Managers/TagsManager.cs:27-35 | the table has at most one key per record |
| `Tables.LastWins` | Managers/ActionsManager.cs:25-33 | the last kept record with a key decides its description, and a missing description is stored as "" |
| `Tables.BuildTable` | Managers/ActionsManager.cs:25-33 | the loop builds the table the records define |
| `Tables.Lookup` | Managers/TagsManager.cs:46 | `TryGetValue`: a value is found exactly when the key is present, and it is the stored value |
| `Tags.BaseNameOf` | Managers/TagsManager.cs:57-62 | the base name, computed from the first '(' and the last non-blank character, is no longer than the tag and has no white space at either end |
| `Tags.PatternMatches` | Managers/TagsManager.cs:57 | the base-name pattern matches only a non-empty tag, since group 1 needs at least one character; `MatchIff` characterises it |
| `Tags.SplitResult` | Managers/TagsManager.cs:57-60 | every way the pattern can match gives the same trimmed group |
| `Tags.MatchIff` | Managers/TagsManager.cs:57-58 | a non-blank tag matches exactly when it has no '(' or its first '(' is not at the start and the tag ends, after blanks, with ')' on the same line |
| `Tags.AllSplitsAgree` | Managers/TagsManager.cs:57-60 | the first capture group of any match, trimmed, is the computed base name |
| `Tags.GetBaseName` | Managers/TagsManager.cs:54-63 | a blank tag is returned unchanged; a tag the pattern does not match is trimmed; for a tag it matches the result is the trimmed first group of that match |
| `Tags.BaseNameOfValued` | Managers/TagsManager.cs:52-60 | `Name(value)` gives `Name` trimmed when `Name` has no '(' |
| `Tags.BaseNameWithoutParen` | Managers/TagsManager.cs:56-62 | a tag without '(' gives itself trimmed, or itself when blank |
| `Tags.BaseNameUnclosed` | Managers/TagsManager.cs:57-62 | a tag whose last non-blank character is not ')' but that has a '(' is only trimmed |
| `Tags.BaseNameExamples` | Managers/TagsManager.cs:52-62 | `Energy(40)` gives `Energy`; `A(b)c` gives itself |
| `Tags.TagsManager.constructor` | Managers/TagsManager.cs:15-16 | the manager starts with its file and no cache |
| `Tags.TagsManager.EnsureLoaded` | Managers/TagsManager.cs:18-36 | the cache becomes the table of the file with keys folded to lower case, empty without a file; once loaded it is kept |
| `Tags.TagsManager.GetDescription` | Managers/TagsManager.cs:42-49 | the description stored for the tag's base name, ignoring case, or none |
| `Tags.TagDescriptionFound` | Managers/TagsManager.cs:29-49 | a tag whose base name equals a kept record's name ignoring case gets the last such record's description |
| `Tags.TagDescriptionMissing` | Managers/TagsManager.cs:42-49 | a tag whose base name matches no kept record gets none |
| `Actions.ActionsManager.constructor` | Managers/ActionsManager.cs:14 | the manager starts with its file and no cache |
| `Actions.ActionsManager.EnsureLoaded` | Managers/ActionsManager.cs:16-34 | the cache becomes the table of the file with exact keys, empty without a file; once loaded it is kept |
| `Actions.ActionsManager.GetAll` | Managers/ActionsManager.cs:36-40 | the whole table, which is also what the cache holds |
| `Actions.ActionsManager.GetDescription` | Managers/ActionsManager.cs:42-48 | the description stored under exactly that name, or none |
| `Actions.ActionDescription` | Managers/ActionsManager.cs:25-48 | an action has a description exactly when a kept record carries its exact name, and it is the last such record's |
| `Resources.GoldRoundTrip` | ResourceManager.cs:58-103 | gold written to the file reads back as the same amount |
| `Resources.GoldIn` | ResourceManager.cs:40-74 | without a file or a `Gold` member the gold is 1000, and a negative amount comes only from a stored text starting, after blanks, with a minus sign |
| `Resources.GoldFile` | ResourceManager.cs:84-94 | the written file holds a non-empty `Gold` text that starts with a minus sign exactly when the amount is negative |
| `Resources.AddResult` | ResourceManager.cs:110-123 | an accepted new balance is non-negative and equals the Int32 sum; the change is refused exactly when the wrapped sum is negative |
| `Resources.AddFromNonNegative` | ResourceManager.cs:110-123 | from a non-negative balance a change is accepted exactly when the exact sum is a non-negative Int32, and then the balance is that sum |
| `Resources.AddFromNegativeWraps` | ResourceManager.cs:113 | from the least Int32, taking 1 wraps to the greatest Int32 and is accepted |
| `Resources.ResourceManager.constructor` | ResourceManager.cs:13-15 | the manager starts with its file and no cache |
| `Resources.ResourceManager.GetGold` | ResourceManager.cs:40-74 | the gold the file holds, or 1000 without a file or a parseable `Gold`; it is then cached |
| `Resources.ResourceManager.SetGold` | ResourceManager.cs:80-103 | on success the file and the cache hold the amount; a failed write changes nothing |
| `Resources.ResourceManager.AddGold` | ResourceManager.cs:110-123 | accepted exactly when the new balance is allowed; then the new balance is written; a refusal changes nothing |
| `Resources.ResourceManager.HasGold` | ResourceManager.cs:130-133 | true exactly when the current gold is at least the amount |
| `Resources.ResourceManager.Reset` | ResourceManager.cs:138-142 | on a successful write the file and the cache hold 1000; a failed write changes neither |
| `Resources.ResourceManager.Initialize` | ResourceManager.cs:20-34 | without a file 1000 is written; with a file the cache is refilled from it |
| `Buildings.WithoutDescriptions` | Managers/BuildingManager.cs:64 | one entry per name, in order, each with an empty description |
| `Buildings.GetBuildings` | Managers/BuildingManager.cs:28-54 | the non-blank names of the file in order, or the five built-in names; never empty, and no name is blank |
| `Buildings.GetBuildingsWithDescriptions` | Managers/BuildingManager.cs:56-85 | a non-empty list from the descriptions file as it is; otherwise the building names with empty descriptions |
| `Buildings.BuildingsWithDescriptions` | Managers/BuildingManager.cs:56-85 | every building comes from the descriptions file or has an empty description, and without a parsed descriptions file every name is a listed building name |
| `Buildings.BuildingsNeverEmpty` | Managers/BuildingManager.cs:56-85 | the described list is never empty, and without a usable descriptions file it is the building names in order with empty descriptions |
| `Buildings.BuildingNamesNonBlank` | Managers/BuildingManager.cs:19-48 | no building name is blank: the file's names are filtered, and no built-in name is blank |
| `Persistency.JsonFileName` | PersistencyManager.cs:36-39 | the file name ends with `.json` ignoring case and is the given name, possibly followed by `.json` |
| `Persistency.LoadFrom` | PersistencyManager.cs:67-100 | a loaded template is the one stored under the name's file name; nothing loads when that file is absent or corrupt |
| `Persistency.JsonFileNameEnds` | PersistencyManager.cs:36-39 | every file name ends with `.json` ignoring case, and a name is its own file name exactly when it already does |
| `Persistency.JsonFileNameIdempotent` | PersistencyManager.cs:36-39 | applying the name rule twice is applying it once |
| `Persistency.SameFile` | PersistencyManager.cs:36-39 | `x` and `x.json` name the same file |
| `Persistency.TemplateStore.constructor` | PersistencyManager.cs:10 | the store starts with the given folder |
| `Persistency.TemplateStore.SaveTemplate` | PersistencyManager.cs:29-60 | on success the template is stored under the name's file name, and nothing else changes; a failed write changes nothing and returns false |
| `Persistency.TemplateStore.LoadTemplate` | PersistencyManager.cs:67-100 | the template stored under the name's file name; none when the file is absent or does not hold an object |
| `Persistency.TemplateStore.DeleteTemplate` | PersistencyManager.cs:135-162 | true exactly when the file exists and the deletion succeeds, and then only that file is gone; otherwise nothing changes |
| `Persistency.LoadAfterSave` | PersistencyManager.cs:29-100 | after saving a name, loading it in either spelling gives the template back, and other names load as before |
| `Persistency.LoadAfterDelete` | PersistencyManager.cs:67-162 | after deleting a name, loading it in either spelling gives none, and other names load as before |
| `Navigation.Classify` | Program.cs:105-228 | the go-up key needs a non-empty stack, the add key needs the current object to accept a part, a number selects a listed part counted from 1, and a missing line is invalid |
| `Navigation.QuitAnyCase` | Program.cs:108-111 | a line quits exactly when it is `q` or `Q` |
| `Navigation.NumberSelects` | Program.cs:218-222 | the text of a number between 1 and the number of listed parts selects that part |
| `Navigation.ChildPartsExactly` | Program.cs:233-256 | the listed parts are exactly the children of the current object, in order |
| `Navigation.GetChildParts` | Program.cs:233-256 | the two loops list the children of the current object |
| `Navigation.ChildParts` | Program.cs:233-256 | every listed part lies one level below the current object |
| `Navigation.NonFrame` | Program.cs:145 | the offered categories are the catalog's categories other than `Frame` ignoring case |
| `Navigation.PickFrom` | Program.cs:200-202 | a part is picked exactly when the input is a number between 1 and the number offered, and it is one of those offered |
| `Navigation.ChildChoice` | Program.cs:137-202 | below a part, a part is picked only when `catInput` numbers a category other than `Frame` in the listed order and `partInput` numbers one of that category's parts; the pick is then that part |
| `Navigation.Above` | Program.cs:70-73 | the navigation stack holds every proper ancestor of the current object, outermost first |
| `Navigation.ParentPartID` | Program.cs:97 | the root has no PartID; a part's is the decimal text of its PartID |
| `Navigation.CanAddAt` | Program.cs:98 | below a part, and at the root of an empty template, a part may always be added; a closed root holds a frame-named part |
| `Navigation.Added` | Program.cs:200-207 | a root add appends one entry under the next `Part_<id>` key and keeps the old ones; a child add keeps the number and keys of the top-level entries |
| `Navigation.Navigator.constructor` | Program.cs:39-40 | navigation starts at the root with an empty stack |
| `Navigation.Navigator.ChooseNewPart` | Program.cs:119-202 | at the root the pick is exactly the Frame part `partInput` numbers; below a part, for a category list that `GetAllCategories` may return, the pick is exactly `ChildChoice` of the two numbers, so a part is picked whenever `catInput` numbers a non-Frame category and `partInput` one of its parts; without a catalog nothing is picked below a part |
| `Navigation.Navigator.NavigationStep` | Program.cs:55-229 | quit ends navigation; go-up pops the stack into the current object; a selection pushes the current object and moves to the selected child; an add at the root adds exactly the Frame part `partInput` numbers, or nothing when the number is out of range; an add below a part adds exactly `ChildChoice` of the two numbers for a possible category list, or nothing without a catalog; an added part lands below the current object and advances the counter; nothing else changes the position or the tree |
| `Navigation.Navigator.Perform` | Program.cs:105-228 | the same transitions, given the classified line, including both add cases stated exactly |
| `Navigation.Navigator.GoUpStep` | Program.cs:114-117 | pops the stack into the current object |
| `Navigation.Navigator.SelectStep` | Program.cs:218-222 | pushes the current object and moves to the selected child |
| `Navigation.Navigator.AddStep` | Program.cs:119-216 | the tree gains the picked part below the current object, or is unchanged when nothing is picked; at the root the pick is the numbered Frame part, below a part it is exactly `ChildChoice` of the two numbers for a possible category list |
| `Navigation.Navigator.PlaceNewPart` | Program.cs:203-207 | the part, carrying only its name, is added with the current object's PartID as parent |
| `Navigation.AddedHere` | Program.cs:97-101 | the current part is found by its own PartID, so the new part lands below it, or at the root at the root |
| `Navigation.GoUpValid` | Program.cs:114-117 | the parent of a valid position is a valid position |
| `Navigation.ChildOfferNotFrame` | Program.cs:145-176 | a part offered below a part has a catalog type other than `Frame` |
| `Navigation.RootOfferIsFrame` | Program.cs:129-131 | a part offered at the root is a catalog part of type `Frame` |

## Left out

- Console output, menus and display formatting: the display code of `NavigationStep` (Program.cs:57-104), the loop of `NavigateJSON` that repeats the step, `OutputCurrentTemplate`, `ConsoleMechTemplateBuilder`, `ResourceManager.DisplayResourceBar` and the UI folder. They have no state to state anything about.
- File-system calls and System.Text.Json parsing and serialisation are foreign library calls. Each file is an input or a field holding its parsed contents, and a template is assumed to survive a JSON round trip.
- Exceptions are not modelled as control flow. Where the code catches a parse failure, the file has its own case: `NotAList` and `Unreadable` for list files, `Unreadable` for the resources file, `Unparsable` for the building descriptions, `Corrupt` for a saved template. A write or delete that the code catches is a `writeSucceeds` or `deleteSucceeds` parameter.
- `Tags.TagsManager.EnsureLoaded`, `Actions.ActionsManager.EnsureLoaded` and the `PartCatalog.PartManager` queries assume the file is a JSON array of objects, or `null`. The code catches nothing there. A non-array file throws, and a tags or actions cache then stays empty for good (Managers/TagsManager.cs:21-25, Managers/ActionsManager.cs:19-23). A non-object item throws after the earlier records were stored, so the cache stays partial. Every catalog query throws on such a file (PartManager.cs:20, 43, 66, 86, 109). None of these paths is modelled.
- `Research.ResearchManager.Save`, `Research`, `Unresearch` and `ApplyDefaultsOnStart`: an uncaught write failure is modelled by its effect on the state, with the cache changed and the file not. That the exception then reaches the caller is not modelled.
- `Tags.GetBaseName`, `Research.ResearchManager.Research` and `Research.ResearchManager.Unresearch` take a Dafny `string`, so the `null` argument that `IsNullOrWhiteSpace` also accepts cannot occur. The C# parameters are declared as non-nullable `string` in code that uses nullable annotations elsewhere (Managers/TagsManager.cs:54, Managers/ResearchManager.cs:62, 72). The null case of the source is therefore not modelled.
- `PersistencyManager.GetSavedTemplates` is only a directory listing plus a file-name call.
- `TagsManager.GetNumericValue` only calls `double.TryParse`.
- `PartManager.GetPartDefinition` and `GetWeightForPart` are not part of this model. They are function-typed parameters with no properties assumed.
- Weights are integers: the floating-point `double` sums of `StatCalc` are out of scope.
- White space and case folding cover ASCII only, not Unicode `OrdinalIgnoreCase` or `char.IsWhiteSpace`.
- `Research.SortBy`: the culture-sensitive `OrderBy` is a total preorder parameter. The sort is proved sorted and a permutation, but it is not stated to be stable.
- `Research.ResearchManager.GetResearched`, `Research.ResearchManager.Save` and `Research.SaveLoadRoundTrip`: the `HashSet` enumeration order is taken to be insertion order, with a removed name closing its gap. .NET instead reuses a removed name's slot, so `Unresearch(a)` then `Research(b)` puts `b` where `a` was. Only the order of the saved list and of the set before sorting depend on this; membership does not.
- `PartCatalog.PartManager.GetAllCategories`: the `HashSet` order is left unstated. The contract gives membership and distinctness only.
- `Navigation.Navigator.ChooseNewPart`, `Navigation.Navigator.AddStep`, `Navigation.Navigator.Perform`, `Navigation.Navigator.NavigationStep`: the order of the category list is that of a .NET `HashSet` and is not modelled, so below a part the contracts state the pick for every category list `GetAllCategories` may return (each non-empty type once), not for the one .NET enumerates.
- `Templates.TemplateManager.AddPart`: the PartID counter is an unbounded `nat`, so Int32 overflow of `IDCounter` is not modelled.
- `Templates.TemplateManager.AddPart` takes a name and scalar properties, which builds a childless part. The navigator only ever passes a name, so adding a part that already has children is not modelled. The name and the PartID are fields of their own, so a `PartID`, `name` or `children` key in the properties is kept beside them rather than overwritten, as `partToAdd["PartID"] = IDCounter` (TemplateMenager.cs:70) would overwrite it. The navigator passes no properties, so this difference is not observable there.
- The null `_manager` branch of `NavigationStep` is not modelled: the navigator is built only with a manager that holds a template.
- `Persistency.LoadFrom`: file names are compared exactly, as on a case-sensitive file system.
- `Resources.ResourceManager.AddGold` models the unchecked Int32 addition by explicit wrap-around instead of bounding the inputs. From a negative balance a wrapped sum can be accepted (`Resources.AddFromNegativeWraps`).
- `Tags.GetBaseName`: the .NET `$` also matches before a final line feed. The model treats `$` as the end of the text; a line feed there is white space that `\s*` absorbs anyway.
- `Buildings.GetBuildings`: each fallback is "a fresh copy", which holds because Dafny sequences are values. Aliasing is not modelled.
- `Navigation.Navigator.NavigationStep` returns the added part's name and a ghost copy of the classified command in addition to the source's result, so its contract can name them.
