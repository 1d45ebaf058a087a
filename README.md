# Addressable Importer — a Dafny model of its rule engine

Addressable Importer is a Unity editor extension. Whenever assets are imported
or moved, it runs a list of import rules over each asset path. A rule that
matches the path creates or updates the asset's Addressables entry:
- it puts the entry in a group;
- it sets the entry's address;
- it merges in the rule's labels.

A rule matches by a wildcard pattern or by a regular expression. Its group
name and address are templates that may quote segments of the asset path with
`${PATH[n]}` tokens. The postprocessor also prunes groups that have become
empty, and names one group per story asset, `StoryAssets_<file>`.

The model has five modules, one file each:

- `text.dfy` (module `Text`): the string operations the rules rely on. These
  are .NET `Trim`, `IsNullOrWhiteSpace`, `StartsWith`, `Contains`,
  `Split`/`Join`, `Path.GetExtension`, and a last-index search.
- `wildcard.dfy` (module `Wildcard`): the meaning of a wildcard pattern after
  it is compiled to a regular expression anchored only at its start.
- `path_tokens.dfy` (module `PathTokens`): `AddressableImportRegex`. It covers
  the `${PATH[n]}` scanner, the wrap-around index normalisation, and
  `ParsePath`, which is kept imperative with its array of resolved segments
  and its two loops.
- `import_rule.dfy` (module `ImportRule`): the rule.
  - The class `AddressableImportRule` has the two fields its methods
    overwrite: the pattern, stored back trimmed, and the address template,
    where null becomes "".
  - Pure functions say what a rule matches and what group, address and labels
    it produces. The simplified-address regular expression is modelled
    concretely.
- `importer.dfy` (module `Importer`): the postprocessor. The class `Catalog`
  holds the Addressables settings: group slots, entries by GUID, and the
  default group. Its methods are `CreateOrUpdateAddressableAssetEntry`, the
  rule loops, `RemoveEmptyGroup`, `FindMissingAssetEntry`, the story-group
  deletion and `OnPostprocessAllAssets`. Each method is proved against a fold
  or a pure function over values, and those functions carry the lemmas.

User-written regular expressions (rules in Regex mode) are a parameter
`RegexEngine`: a pair of functions, "is match" and "replace". The model
states its results in terms of that pair.

Two behaviours of the code that the model keeps:

- The code does not special-case a path without any '/'. There the modulus
  of the index normalisation is 0, and the wrapping loops never end for any
  index other than 0. `ExpansionTerminates` is therefore a precondition of
  the expansion functions, and `RuleTerminates` states it for a rule.
- Index `-1` selects the second-to-last path segment, not the last one,
  because the modulus is the segment count minus one (`MinusOneIsNotLast`).

One observation about the group lookup: `TryGetGroup` trims the requested
name but `CreateGroup` is given it untrimmed. With group creation on, a group
name with surrounding white space is therefore created again on every
application of the rule (`UntrimmedGroupCreatedTwice`). The entry itself is
not changed by the second application (`UpdateEntryTwiceEntries`).

## Model

| member | source | states |
|---|---|---|
| `Text.TrimFacts` | AddressableImporter/Editor/AddressableImportRule.cs:111-113 | The trimmed pattern is no longer than the pattern. It is empty exactly when the pattern is blank, and it neither starts nor ends with white space. |
| `Text.TrimIdempotent` | AddressableImporter/Editor/AddressableImportRule.cs:111 | Trimming the stored pattern again changes nothing, so a second Match sees the same pattern. |
| `Text.SplitJoin` | AddressableImporter/Editor/AddressableImportRule.cs:205-208 | Splitting on a separator and joining the parts with it gives back the original string. |
| `Text.SplitHasSeveralParts` | AddressableImporter/Editor/AddressableImportRule.cs:223-224 | A path splits into more than one segment exactly when it holds a separator. |
| `Text.SplitAtSeparator` | AddressableImporter/Editor/AddressableImportRule.cs:205-208 | Splitting `x + sep + y` gives the parts of `x` followed by the parts of `y`. |
| `Text.NoSeparatorOnePart` | AddressableImporter/Editor/AddressableImportRule.cs:223-224 | A path without a separator is its own single segment. |
| `Text.SplitLast` | AddressableImporter/Editor/AddressableImporter.cs:330-331 | The last part of `dir + name` is `name`, when `dir` ends in a separator and `name` has none. |
| `Text.LastIndexInFacts` | AddressableImporter/Editor/AddressableImportRule.cs:168 | The search returns a position holding a searched character with none after it. It returns nothing only when no such character occurs. |
| `Text.GetExtensionOfDotted` | AddressableImporter/Editor/AddressableImporter.cs:33-34 | A name ending in '.' and at least one character that is neither '.' nor a separator has that ending as its extension, a leading-dot name included. |
| `Text.GetExtensionFacts` | AddressableImporter/Editor/AddressableImporter.cs:33-34 | The extension is a suffix of the path that starts with '.', has at least one more character, and holds no separator and no other '.'. A path without '.' has none. |
| `Wildcard.MatchesAtStartIffPrefixMatches` | AddressableImporter/Editor/AddressableImportRule.cs:118-119 | The start-anchored expression matches a path exactly when some prefix of the path is in the glob language of the pattern. |
| `Wildcard.LiteralMatchIsPrefix` | AddressableImporter/Editor/AddressableImportRule.cs:116-122 | Without `*` or `?`, the compiled expression matches exactly the paths that start with the pattern. The two branches of Match agree. |
| `Wildcard.MatchExtends` | AddressableImporter/Editor/AddressableImportRule.cs:118-119 | A string that matches still matches with anything appended, since the end is not anchored. |
| `Wildcard.LeadingLiteralMismatch` | AddressableImporter/Editor/AddressableImportRule.cs:118-119 | A string whose first character differs from the pattern's leading literal never matches. |
| `PathTokens.TokenAt` | AddressableImporter/Editor/AddressableImportRule.cs:203 | A token found is a prefix of the text, longer than its delimiters, and its index lies within -999..999. |
| `PathTokens.DecimalValueLeading` | AddressableImporter/Editor/AddressableImportRule.cs:232 | The digits read from the front give the same number as `DecimalValue`, which reads them from the back: the leading digit weighs 10 to the number of digits after it. |
| `PathTokens.TokenAtRecognises` | AddressableImporter/Editor/AddressableImportRule.cs:203 | Every `${PATH[`, optional '-', one to three digits, `]}` at the front of a text is taken as a token, whatever follows, and its index is the signed decimal value of the digits. |
| `PathTokens.TokenAtShape` | AddressableImporter/Editor/AddressableImportRule.cs:203 | Conversely, a token taken is such a text at the front of the input, with the signed value of its digits as index. |
| `PathTokens.Scan` | AddressableImporter/Editor/AddressableImportRule.cs:225 | Splitting the template at its tokens leaves one more piece than there are tokens. |
| `PathTokens.ScanLeftmost` | AddressableImporter/Editor/AddressableImportRule.cs:225 | The scan meets `Leftmost`, a reference definition of a leftmost scan for the recogniser `TokenAt`: no position inside the first piece starts a token, the first token is the one that starts right after it, and what follows that token is again scanned leftmost, so the same holds for every piece. Without tokens the single piece is the template. |
| `PathTokens.ScanFindsTokens` | AddressableImporter/Editor/AddressableImportRule.cs:225 | The scan finds a token exactly when a token starts at some position of the template. |
| `PathTokens.ScanAfterToken` | AddressableImporter/Editor/AddressableImportRule.cs:225 | A token at the front gives an empty first piece and that token first, then the scan of the rest. |
| `PathTokens.ScanAfterText` | AddressableImporter/Editor/AddressableImportRule.cs:246 | A character other than '$' at the front is kept as text at the start of the first piece. |
| `PathTokens.ScanRoundTrip` | AddressableImporter/Editor/AddressableImportRule.cs:246 | Interleaving the split pieces with the matched token texts rebuilds the template exactly. |
| `PathTokens.NoTokenSinglePiece` | AddressableImporter/Editor/AddressableImportRule.cs:246 | A template with no token anywhere yields no tokens. |
| `PathTokens.NormalizeIndex` | AddressableImporter/Editor/AddressableImportRule.cs:233-240 | The two loops end with an index in `0..len` equal to the closed form `NormalizedIndex`: an index above `len` maps to `((idx-1) mod len)+1`, a negative one to `idx mod len`. |
| `PathTokens.MinusOneIsNotLast` | AddressableImporter/Editor/AddressableImportRule.cs:224-240 | Index -1 selects segment `len-1`, the second-to-last one. |
| `PathTokens.WrapPeriod` | AddressableImporter/Editor/AddressableImportRule.cs:233-236 | Positive indices wrap with period `len`, the segment count minus one. |
| `PathTokens.ResolveMatches` | AddressableImporter/Editor/AddressableImportRule.cs:225-242 | The new array holds, for each token in order, the path segment at its normalised index. |
| `PathTokens.AssemblePieces` | AddressableImporter/Editor/AddressableImportRule.cs:244-257 | The assembling loop returns the pieces interleaved with the resolved segments. |
| `PathTokens.ParsePath` | AddressableImporter/Editor/AddressableImportRule.cs:219-258 | The result is the template with every token replaced by its resolved segment, the specification `Expand`. |
| `PathTokens.NoTokenTemplateUnchanged` | AddressableImporter/Editor/AddressableImportRule.cs:219-258 | A template without tokens always terminates and expands to itself. |
| `PathTokens.ResolvedAreSegments` | AddressableImporter/Editor/AddressableImportRule.cs:233-242 | Every resolved fill is one of the path's '/'-segments. |
| `PathTokens.PathArrayOfJoin` | AddressableImporter/Editor/AddressableImportRule.cs:205-208 | Segments without '/' joined with '/' split back into exactly those segments. |
| `PathTokens.FirstAndMinusOne` | AddressableImporter/Editor/AddressableImportRule.cs:224-242 | Over a joined path, index 0 is the first segment, index `len` is the last, and -1 is the second-to-last. |
| `PathTokens.ExpandFirstAndMinusOne` | AddressableImporter/Editor/AddressableImportRule.cs:219-258 | The template `${PATH[0]}_${PATH[-1]}` on `Assets/Foo/Bar/Baz.png` expands to `Assets_Bar`. |
| `ImportRule.MatchSemantics` | AddressableImporter/Editor/AddressableImportRule.cs:109-127 | A blank pattern never matches. In Wildcard mode a path matches exactly when the start-anchored expression of the trimmed pattern matches it, which without glyphs means the path starts with it. Regex mode is the engine's match with the trimmed pattern. |
| `ImportRule.WildcardMatchExtends` | AddressableImporter/Editor/AddressableImportRule.cs:118-119 | A path that a wildcard rule matches stays matched with any suffix appended. |
| `ImportRule.WildcardLeadingMismatch` | AddressableImporter/Editor/AddressableImportRule.cs:118-119 | A path whose first character differs from the pattern's leading literal is not matched. |
| `ImportRule.GroupReplacement` | AddressableImporter/Editor/AddressableImportRule.cs:134-146 | No group (null) exactly when the pattern or the group template is blank. Wildcard mode gives the token expansion of the template; Regex mode gives the engine's replace of the pattern by that expansion. |
| `ImportRule.ConstantGroupName` | AddressableImporter/Editor/AddressableImportRule.cs:134-146 | A token-free group template is used verbatim in Wildcard mode. |
| `ImportRule.StripExtensionFacts` | AddressableImporter/Editor/AddressableImportRule.cs:168 | Removing the extension leaves a prefix of the name, non-empty for a non-empty name, and the whole name when it holds no '.'. |
| `ImportRule.SimplifiedNameFacts` | AddressableImporter/Editor/AddressableImportRule.cs:166-168 | The simplified address is no longer than the path and non-empty for a non-empty path. It is the path unchanged when no separator comes before the last character. |
| `ImportRule.StripExtensionOfDotted` | AddressableImporter/Editor/AddressableImportRule.cs:168 | `base.ext` with a non-empty base loses exactly `.ext`. |
| `ImportRule.StripExtensionOfLeadingDot` | AddressableImporter/Editor/AddressableImportRule.cs:168 | A name whose only '.' is its first character keeps it, as `.hidden` does. |
| `ImportRule.StripExtensionAndGetExtension` | AddressableImporter/Editor/AddressableImportRule.cs:168 | The name without its extension, followed by `Path.GetExtension` of the name, is the name. |
| `ImportRule.SimplifiedNameOfFile` | AddressableImporter/Editor/AddressableImportRule.cs:166-178 | For `dir/name` the simplified address is the file name without its extension. |
| `ImportRule.SimplifiedNameIsLastSegment` | AddressableImporter/Editor/AddressableImportRule.cs:166-178 | The simplified address is the last path segment without its extension. |
| `ImportRule.AddressReplacement` | AddressableImporter/Editor/AddressableImportRule.cs:153-180 | The path comes back unchanged when the pattern is blank, or when the rule is not simplified and the template is blank; it also does in Wildcard mode when not simplified. Simplified rules give the simplified name. Regex mode gives the engine's replace by the token expansion. |
| `ImportRule.Labels` | AddressableImporter/Editor/AddressableImportRule.cs:182-196 | One label per label reference, in order, and none for a null list. |
| `ImportRule.HasLabelIffLabels` | AddressableImporter/Editor/AddressableImportRule.cs:98-104 | HasLabel holds exactly when the labels getter yields a label. |
| `ImportRule.AddressableImportRule.constructor` | AddressableImporter/Editor/AddressableImportRule.cs:39-96 | A rule holds the fields it is given. |
| `ImportRule.AddressableImportRule.Match` | AddressableImporter/Editor/AddressableImportRule.cs:109-127 | Stores the pattern trimmed and returns `Matches` of the original pattern. The rule's value is unchanged. |
| `ImportRule.AddressableImportRule.ParseGroupReplacement` | AddressableImporter/Editor/AddressableImportRule.cs:134-146 | Returns `GroupReplacement` of the stored pattern and changes nothing. |
| `ImportRule.AddressableImportRule.ParseAddressReplacement` | AddressableImporter/Editor/AddressableImportRule.cs:153-180 | Returns `AddressReplacement`, and overwrites a null template with "" exactly when the early returns are not taken. The rule's value is unchanged. |
| `ImportRule.AddressableImportRule.HasAnyLabel` | AddressableImporter/Editor/AddressableImportRule.cs:98-104 | True exactly when the rule has at least one label. |
| `Importer.FindGroupFacts` | AddressableImporter/Editor/AddressableImporter.cs:229 | Over slots without nulls, `Find` never faults. It misses exactly when no group has the name, and otherwise returns the first group with it. |
| `Importer.TryGetGroupFacts` | AddressableImporter/Editor/AddressableImporter.cs:222-230 | A blank or null name gives the default group. Otherwise the group found is in the list and carries the trimmed name, and it is missing exactly when no group carries that name. |
| `Importer.UpdateEntryGroup` | AddressableImporter/Editor/AddressableImporter.cs:141-156 | No group and no creation leaves the settings unchanged, with no entry reported. A found group keeps the list and receives the entry. A created group is appended under the requested name and receives the entry. No null slot appears. |
| `Importer.UpdateEntryFrame` | AddressableImporter/Editor/AddressableImporter.cs:164-170 | All entries other than the asset's own are left as they were. |
| `Importer.UpdateEntryLabels` | AddressableImporter/Editor/AddressableImporter.cs:174-179 | Replace leaves exactly the rule's labels. Add leaves the entry's previous labels (none for a new entry) together with the rule's. |
| `Importer.UpdateEntryAddress` | AddressableImporter/Editor/AddressableImporter.cs:181-195 | When the condition is false, the address is untouched and the entry is reported. When it holds, the address becomes the rule's address, and the entry is reported exactly when that differs from the old one. Label changes stay in either case. |
| `Importer.PlaceGroupTwice` | AddressableImporter/Editor/AddressableImporter.cs:141-156 | A found group is found again. A group created under a trimmed name is found by the next lookup. |
| `Importer.UpdateEntryTwice` | AddressableImporter/Editor/AddressableImporter.cs:133-198 | Applying a rule twice to an asset leaves the settings as applying it once, when a created group's name has no surrounding white space. |
| `Importer.PlaceGroupAgain` | AddressableImporter/Editor/AddressableImporter.cs:141-156 | Placing the entry again on the group list the first placement produced succeeds and names the same group. |
| `Importer.UpdateEntryTwiceEntries` | AddressableImporter/Editor/AddressableImporter.cs:133-198 | Applying a rule twice to an asset leaves every entry (group, address, labels) as applying it once, whatever the group name. |
| `Importer.UntrimmedGroupCreatedTwice` | AddressableImporter/Editor/AddressableImporter.cs:141-156 | With creation on, a missing group name with surrounding white space is appended once per application, so two applications leave two groups of that name. |
| `Importer.MergeRuleLabels` | AddressableImporter/Editor/AddressableImporter.cs:174-179 | The label loop yields the cleared or kept set together with every label of the rule. |
| `Importer.ApplyRule` | AddressableImporter/Editor/AddressableImporter.cs:31-39 | Applying one rule keeps the group list free of null slots. |
| `Importer.ApplyRules` | AddressableImporter/Editor/AddressableImporter.cs:29-45 | Applying the rules in order keeps the group list free of null slots. |
| `Importer.ImportAll` | AddressableImporter/Editor/AddressableImporter.cs:27-46 | Importing a list of assets keeps the group list free of null slots. |
| `Importer.ApplyRulesAdds` | AddressableImporter/Editor/AddressableImporter.cs:36-39 | The reported list only grows, by entries for the current asset. |
| `Importer.ImportAllAppend` | AddressableImporter/Editor/AddressableImporter.cs:27-71 | Importing the imported assets and then the moved ones equals importing their concatenation. |
| `Importer.RemovableMeaning` | AddressableImporter/Editor/AddressableImporter.cs:106-126 | A group is removed exactly when it is not the default group and every entry it holds has lost its asset. |
| `Importer.RemovalIgnoresReadOnly` | AddressableImporter/Editor/AddressableImporter.cs:115-117 | Read-only status does not change the removal decision. |
| `Importer.KeptGroupsMembers` | AddressableImporter/Editor/AddressableImporter.cs:109-125 | The groups kept are exactly the slots the predicate spares, and none of them is null. |
| `Importer.RemovableAfterDrops` | AddressableImporter/Editor/AddressableImporter.cs:232-245 | Dropping the missing entries of the groups visited earlier does not change the decision for a later group. |
| `Importer.RemoveEmptyGroupIdempotent` | AddressableImporter/Editor/AddressableImporter.cs:106-126 | A second pruning pass over the result removes nothing. |
| `Importer.PrunedLeavesNothingRemovable` | AddressableImporter/Editor/AddressableImporter.cs:106-126 | After pruning, no group left satisfies the removal predicate. |
| `Importer.DefaultGroupKept` | AddressableImporter/Editor/AddressableImporter.cs:115 | The default group is never removed. |
| `Importer.SplitIgnoresAbsent` | AddressableImporter/Editor/AddressableImporter.cs:205 | Adding a separator that does not occur in a path does not change its split. |
| `Importer.StoryNamesAgree` | AddressableImporter/Editor/AddressableImporter.cs:203-206 | For a story path written with '/' only, the group removed on deletion is the group created on import. |
| `Importer.StoryGroupOfFile` | AddressableImporter/Editor/AddressableImporter.cs:330-331 | The story group of `dir/name` is `StoryAssets_name`. |
| `Importer.Catalog.PlaceInGroup` | AddressableImporter/Editor/AddressableImporter.cs:141-156 | The group step: it agrees with `PlaceGroup`, and changes nothing when no group is used. |
| `Importer.Catalog.CreateOrUpdateEntry` | AddressableImporter/Editor/AddressableImporter.cs:133-198 | The new settings and the reported flag are those of `UpdateEntry`. The rule's value is unchanged. |
| `Importer.Catalog.ApplyRuleTo` | AddressableImporter/Editor/AddressableImporter.cs:31-39 | One rule on one asset has the effect of `ApplyRule`, and the rule's stored pattern is left trimmed. |
| `Importer.Catalog.ApplyRulesTo` | AddressableImporter/Editor/AddressableImporter.cs:29-45 | All rules on one asset, in order, have the effect of `ApplyRules`. |
| `Importer.Catalog.ImportAssets` | AddressableImporter/Editor/AddressableImporter.cs:27-46 | The loop over a list of assets has the effect of `ImportAll`, appending to the shared reported list. |
| `Importer.Catalog.FindMissingAssetEntry` | AddressableImporter/Editor/AddressableImporter.cs:232-245 | Exactly the group's entries whose asset path is empty are removed. |
| `Importer.Catalog.RemoveEmptyGroup` | AddressableImporter/Editor/AddressableImporter.cs:106-126 | The groups become `KeptGroups`, in order. The entries lose the missing ones of every visited group. |
| `Importer.Catalog.DeleteStoryGroup` | AddressableImporter/Editor/AddressableImporter.cs:200-214 | For a story path, the first group named after the file is removed and the other slots stay in order. Otherwise nothing changes. |
| `Importer.Catalog.OnPostprocess` | AddressableImporter/Editor/AddressableImporter.cs:13-104 | Without rules nothing changes. Otherwise the reported list is that of importing the imported and then the moved assets, and deletions switch pruning on. After pruning, no removable group is left. |

## Left out

- Unity editor services: the asset database (GUIDs, `SaveAssets`, `SetDirty`), group templates and schemas (`AddSchemas`), and the debug logs. A GUID is represented by the asset's import path.
- `settings.CreateGroup` is modelled as appending a group with the requested name, neither default nor read-only. Addressables renames a new group whose name is already taken; that renaming is not modelled.
- `CreateOrMoveEntry` is modelled as moving an existing entry to the group, or as creating an entry addressed by its path with no labels. A null result, which happens for an unknown GUID, is not modelled.
- `settings.RemoveGroup` and `RemoveAssetEntry(g.Guid)` on deletion: the model removes the group slot only. The entries the group asset held are left as they were.
- Null group slots while rules run or groups are looked up: the code dereferences them and throws, and the model requires their absence (`NoNullGroups`). Under that requirement the loop that removes null groups (AddressableImporter.cs:90-97) does nothing, so it is not modelled.
- Entries belong to groups by name, so two groups with one name would share entries.
- The `FolderImporter` menu commands, directory enumeration, file deletion and built-in data creation. Only the story group name they compute is modelled (`StoryGroupOnCreate`).
- Rules in Regex mode: the .NET regular-expression engine is a parameter (`RegexEngine`) and is not interpreted.
- An invalid user pattern in Regex mode makes `Regex.IsMatch` or `Regex.Replace` throw `ArgumentException` (AddressableImportRule.cs:125, 143 and 178). That aborts `OnPostprocessAllAssets` part-way through its loops, leaving the assets before it updated and those after it not. The engine here is total, so neither the exception nor that partial run is modelled.
- The `\d` of the token expression also accepts non-ASCII Unicode decimal digits in .NET, which `int.Parse` then rejects with an exception. The model takes only '0'-'9' as digits.
- The `*` and `?` of a wildcard pattern match any character here, including a newline. The `.` they compile to in .NET does not match a newline.
- White space is the Latin-1 set; other Unicode white space and culture-sensitive `StartsWith` comparison are not modelled.
- A null path pattern, a null rule in the list, a null `ExcludeExt` list and a null entry address: each would throw in the code and is not modelled.
- Importer.Catalog.ImportAssets: requires the address template's expansion to terminate for every rule that takes effect, even where the code never expands it. That happens when no group is found or the address condition is false, and the code would not loop there.
- Importer.Catalog.CreateOrUpdateEntry: the same over-requirement on the address template, for the same reason.
- Importer.Catalog.ApplyRuleTo: the same over-requirement on the address template, for a rule that takes effect.
- Importer.Catalog.ApplyRulesTo: the same over-requirement, for every rule of the list that takes effect on the asset.
- Importer.ApplyRule: the same over-requirement on the address template, for a rule that takes effect.
- Importer.ApplyRules: the same over-requirement, through `RulesTerminate`, for every rule that takes effect.
- Importer.ImportAll: the same over-requirement, through `RulesTerminate`, for every rule and every asset of the list.
- Importer.Catalog.OnPostprocess: the same over-requirement, for every imported and moved asset.
- Importer.Catalog.ApplyRulesTo, Importer.Catalog.ImportAssets: they state that each rule's value view `Spec()` is unchanged, not that the stored pattern of every rule ends up trimmed by `Match`. That is stated for one rule by `Catalog.ApplyRuleTo`.
- Importer.Catalog.OnPostprocess: its contract gives the reported list and the no-removable-group guarantee, not the full state after deletions and pruning. Each step's full effect is stated by the method that performs it.
- Importer.ApplyRule, Importer.ApplyRules, Importer.ImportAll: their own contracts state only that the group list keeps no null slot. What they compute is stated by the methods proved equal to them and by the lemmas about them.
