# Verified models of WebDriverAgent

This project models the parts of WebDriverAgent whose behaviour runs over
unbounded trees, strings or histories, and proves what they promise. `dafny
verify dfyconfig.toml` checks everything.

| file | about |
|---|---|
| `ElementTree.dfy`, `ElementQuery.dfy` | trees of UI elements, document order, lazy queries and what they match |
| `ClassChain.dfy`, `ChainMeaning.dfy`, `HeaderReading.dfy`, `ElementFind.dfy` | class chain lookup, what it finds element by element, how far it agrees with its documentation, and the searches by class name and predicate |
| `ChainTokens.dfy`, `ChainParser.dfy`, `ChainText.dfy`, `ChainSpelled.dfy`, `ChainGrammar.dfy`, `ChainRoundTrip.dfy`, `ClassChainSearch.dfy` | the class chain query language: tokenizer, compiler, the texts of a chain, the exact language, round trip, and parsing followed by lookup |
| `Utf8Repair.dfy`, `Utf8Encoding.dfy`, `Utf8Containers.dfy` | making strings, and the strings in nested containers, safe for UTF-8, and what that means for scalar values |
| `AttributeCache.dfy`, `Snapshots.dfy` | the attribute cache of snapshots, with the shortcut for visibility |
| `AccessibilityTree.dfy`, `JsonTree.dfy` | the two projections of a snapshot tree |
| `ActiveApplication.dfy` | choosing the active application |
| `ProjectFile.dfy` | the Xcode project file and its backup under crashes and failures |
| `XcodeBuildStart.dfy` | the race between log lines, process exit and status polling |
| `ProjectCleanup.dfy`, `WebDriverAgent.dfy` | cleaning after an upgrade, and the life cycle of the agent object |
| `ProcessKiller.dfy` | escalating signals |
| `MachineIntegers.dfy`, `Strings.dfy`, `Wrappers.dfy` | 64-bit integers, text inside text, options and results |

Where the source updates things in place the model does too: loops are methods
with invariants, objects are classes. Each such method is proved equal to a
function, or to a property that determines its result, and the laws are lemmas
about those functions over all inputs, runs and histories.

## Foreign code

- XCTest queries: an element's own query matches exactly that element; the first
  match is the head of all matches; matches come once each in document order; the
  tree does not change during a lookup. Predicates are arbitrary functions of nodes.
- The characters that `illegalCharacterSet` leaves over are arbitrary, but for the two
  predicate markers and the closing bracket, which are legal. A character that takes
  two UTF-16 units is one character here, legal if both units are.
- An array of matches has fewer than 2^64 elements (`ClassChain.Fits`).
- The lossy conversion to UTF-8 deletes exactly the unpaired surrogates.
- A native attribute fetch gives the native value or fails. The four cache symbols
  are distinct.
- `retryInterval` of asyncbox makes at most `times` attempts, stops at the first
  that does not throw, throws what the last one throws, and makes no attempt when
  `times` is not positive. A promise settles once.
- What `strongbox` stores is there again at the next launch; versions are compared
  by their three numbers; the href of a parsed url is not empty.
- File operations are atomic; bundle ids are plain text without `$` patterns.

## Where the code and its documentation differ

The models follow the code. Each difference is proved.

- `XCUIElement+FBClassChain.h` reads `Window/Button[3]` as a button of the first
  window. The code searches all windows, so `Window/Button[1]` can find the button of
  the second (`HeaderReading.AllWindowsAreSearched`). `HeaderReading.AgreesWithHeaderIff`
  and `HeaderReading.AgreesAtPositionIff` give the exact conditions under which it makes
  no difference.
- The same header promises that a doubled backtick or dollar sign escapes one inside
  a predicate. At the start of a predicate it does not: it is skipped. The parser
  also rejects predicates with an illegal character and positions whose low 32 bits
  are zero. `ChainRoundTrip.RoundTripIff` gives the exact condition.
- The language is also wider than documented: the slash of the descendant marker may be
  missing or be a third star in front of a name (`ChainRoundTrip.MarkerWithoutSlash`),
  and the opening marker of a predicate may be repeated. `ChainGrammar.ParsesIff` is the
  exact language.
- `NSDictionary+FBUtf8SafeDictionary.h` promises that all non-encodable characters are
  replaced. Those at the end are dropped, and a pair after a run of high surrogates
  that contains its own high surrogate is torn apart (`Utf8Repair.DoubledHighIsTorn`).
  `Utf8Repair.RepairAsDocumentedIff` gives the exact condition, and
  `Utf8Containers.PassAsDocumentedIff` that for nested values.
- The exit handler in `lib/xcodebuild.js` sets `didProcessExit`, the retry loop reads
  `_didProcessExit`: an exit does not end the polling (`XcodeBuildStart.ExitDoesNotStopPolling`).
- With a launch timeout set below 500 ms no status is requested: the start resolves
  without one (`XcodeBuildStart.ResolvesWithAnswerIff`), even if xcodebuild then fails
  (`XcodeBuildStart.FailingExitRejectsIff`).

## Model

| member | source | states |
|---|---|---|
| ElementTree.DocumentOrderComplete | WebDriverAgentLib/Utilities/FBXCodeCompatibility.m:36-41 | the pre-order listing that matches are drawn from holds exactly the elements of the tree |
| ElementTree.DocumentOrderSorted | WebDriverAgentLib/Utilities/FBXCodeCompatibility.m:36-41 | the listing is in strict document order, so no element comes twice |
| ElementTree.SortedUnique | WebDriverAgentLib/Utilities/FBXCodeCompatibility.m:36-41 | two lists in document order with the same members are the same list |
| ElementTree.BeforeIff | WebDriverAgentLib/Utilities/FBXCodeCompatibility.m:36-41 | document order puts an element before its descendants and an earlier sibling's subtree before a later one's, and says nothing else |
| ElementQuery.AllMatches | WebDriverAgentLib/Utilities/FBXCodeCompatibility.m:36-41 | resolving a query gives exactly the matching elements, in document order |
| ClassChain.QueryWithChainItem | WebDriverAgentLib/Categories/XCUIElement+FBClassChain.m:53-78 | the loop over the predicates composes the query of the item onto the given query, or onto the root's own |
| ClassChain.ItemQueryIsStep | WebDriverAgentLib/Categories/XCUIElement+FBClassChain.m:53-78 | resolving a query with an item composed onto it is one step of the direct interpreter from the query's matches |
| ClassChain.IndexLaw | WebDriverAgentLib/Categories/XCUIElement+FBClassChain.m:80-96 | for every 64-bit position the wrapping signed and unsigned arithmetic selects the k-th match, the k-th match from the end, or nothing when out of range |
| ClassChain.WrappedIndex | WebDriverAgentLib/Categories/XCUIElement+FBClassChain.m:90-93 | a negative position added to the unsigned count wraps to the index from the end |
| ClassChain.DescendantsMatchingClassChain | WebDriverAgentLib/Categories/XCUIElement+FBClassChain.m:17-51 | the loop that resolves queries only at positioned items returns what the item by item interpreter returns, or the parse error |
| ClassChain.ResultsInOrder | WebDriverAgentLib/Categories/XCUIElement+FBClassChain.m:25-50 | every chain lists proper descendants of the start, once each, in document order |
| ClassChain.ChainsCompose | WebDriverAgentLib/Categories/XCUIElement+FBClassChain.m:30-47 | a chain splits at an item with a non-zero position: the rest is looked up from the one element the first part selects |
| ClassChain.FirstMatchMode | WebDriverAgentLib/Categories/XCUIElement+FBClassChain.m:48-50 | first-match mode gives the first element of full mode, and the same element if the last item has a non-zero position |
| ChainMeaning.StepMembers | WebDriverAgentLib/Categories/XCUIElement+FBClassChain.m:53-78 | an item leads from an element to exactly its children, or descendants, of the type, 0 being any, that satisfy each self predicate and hold a proper descendant that satisfies each other one |
| ChainMeaning.LastStep | WebDriverAgentLib/Categories/XCUIElement+FBClassChain.m:30-47 | the last item of any chain goes on from what the chain before it finds |
| ChainMeaning.LastPicks | WebDriverAgentLib/Categories/XCUIElement+FBClassChain.m:80-96 | a position k at the end of any chain picks the k-th of what it finds without, or the k-th from the end, in both modes |
| HeaderReading.FreeMembers | WebDriverAgentLib/Categories/XCUIElement+FBClassChain.m:30-46 | a chain without positions finds exactly what it finds from one of its start elements |
| HeaderReading.AgreesWithHeaderIff | WebDriverAgentLib/Categories/XCUIElement+FBClassChain.h:18-23 | for every tree and chain without positions, reading the first item as its first match makes no difference exactly when all that the rest finds below any match it finds below the first |
| HeaderReading.AgreesAtPositionIff | WebDriverAgentLib/Categories/XCUIElement+FBClassChain.h:18-23 | for children of one root and a position at the end, it makes none exactly when the matches below the first child are all there are, or reach up to the position, or there are too few in all |
| HeaderReading.AllWindowsAreSearched | WebDriverAgentLib/Categories/XCUIElement+FBClassChain.h:18 | with an empty window before one that has a button, `Window/Button[1]` finds that button, and nothing in the header's reading |
| ElementFind.DescendantsMatchingClassName | WebDriverAgentLib/Categories/XCUIElement+FBFind.m:46-62 | a class-name search is the start element if its type fits, then the result of the one-item chain; first-match form is its prefix of length one |
| ElementFind.DescendantsMatchingPredicate | WebDriverAgentLib/Categories/XCUIElement+FBFind.m:77-94 | the same for a predicate |
| ElementFind.AnyDepthMatches | WebDriverAgentLib/Categories/XCUIElement+FBFind.m:29-37 | the query of such a search matches what a chain of one descendant item finds |
| ElementFind.SearchesInOrder | WebDriverAgentLib/Categories/XCUIElement+FBFind.m:54-61 | with the start element in front the results are still in document order without repeats |
| ElementFind.ClassNameMembers | WebDriverAgentLib/Categories/XCUIElement+FBFind.m:46-62 | the search holds exactly the elements of that type, or of any for type 0, in the subtree of the start element |
| ElementFind.PredicateMembers | WebDriverAgentLib/Categories/XCUIElement+FBFind.m:77-94 | a predicate search holds exactly the elements of the subtree that satisfy it |
| ChainTokens.TokenizedQuery | WebDriverAgentLib/Utilities/FBClassChainQueryParser.m:441-496 | the loop over the characters computes the tokens of the query, for every set of legal characters |
| ChainParser.CompiledQuery | WebDriverAgentLib/Utilities/FBClassChainQueryParser.m:504-632 | the loop over the tokens computes the chain items or fails |
| ChainParser.ParseQuery | WebDriverAgentLib/Utilities/FBClassChainQueryParser.m:634-642 | parsing is tokenizing, then compiling |
| ChainText.TextWithItem | WebDriverAgentLib/Categories/XCUIElement+FBClassChain.h:18-34 | in the text of a chain a further item follows a slash |
| ChainText.TextWithPredicate | WebDriverAgentLib/Categories/XCUIElement+FBClassChain.h:30-33 | a further predicate is written in brackets, in backticks on the element, in dollar signs on its descendants |
| ChainText.TextWithPosition | WebDriverAgentLib/Categories/XCUIElement+FBClassChain.h:33-34 | the position is written last, in brackets |
| ChainText.EscapedLast | WebDriverAgentLib/Categories/XCUIElement+FBClassChain.h:30 | in an escaped predicate each marker is doubled and nothing else changes |
| ChainSpelled.TokensRecovered | WebDriverAgentLib/Utilities/FBClassChainQueryParser.m:133-372 | every spelling of a chain, with legal characters only, is split into the tokens of the chain |
| ChainSpelled.ChainRecovered | WebDriverAgentLib/Utilities/FBClassChainQueryParser.m:504-632 | those tokens compile to the chain |
| ChainGrammar.TokensAreRead | WebDriverAgentLib/Utilities/FBClassChainQueryParser.m:441-496 | the tokens of any accepted query spell it piece by piece and follow each other as the tokenizer allows |
| ChainGrammar.ParsesIff | WebDriverAgentLib/Utilities/FBClassChainQueryParser.m:634-642 | a query is parsed as a chain exactly when it is a spelling of it: items joined by slashes, each a marker, a known type, predicates and then at most one position; everything else is rejected |
| ChainRoundTrip.ParsedIsExpressible | WebDriverAgentLib/Utilities/FBClassChainQueryParser.m:342-370 | no query gives a chain with a predicate that is empty, starts with its marker or holds an illegal character, or with a position that is zero in 32 bits |
| ChainRoundTrip.RoundTripIff | WebDriverAgentLib/Categories/XCUIElement+FBClassChain.h:30-31 | writing a chain and parsing it gives the chain back exactly when it is expressible: no predicate is empty, starts with its marker or holds an illegal character, no position is zero in 32 bits |
| ChainRoundTrip.MarkerWithoutSlash | WebDriverAgentLib/Utilities/FBClassChainQueryParser.m:172-221 | `**Name` and `***Name` are parsed like `**/Name` |
| ClassChainSearch.DescendantsMatchingQuery | WebDriverAgentLib/Categories/XCUIElement+FBClassChain.m:17-51 | searching with a query string gives the parse error or what the parsed, never empty, chain means |
| ClassChainSearch.LastItemFinds | WebDriverAgentLib/Categories/XCUIElement+FBClassChain.m:17-51 | the search with a chain's text finds, in document order, exactly what its last item leads to from something found by the text before it: along its axis, of its type or of any for `*`, with each predicate text true of the element or below it |
| ClassChainSearch.PositionSelects | WebDriverAgentLib/Categories/XCUIElement+FBClassChain.m:80-96 | with `[k]` added to the text it finds the k-th of that, or the k-th from the end, or nothing |
| ClassChainSearch.FirstFound | WebDriverAgentLib/Categories/XCUIElement+FBClassChain.m:48-50 | first-match mode finds the first of it |
| ClassChainSearch.FailsIff | WebDriverAgentLib/Categories/XCUIElement+FBClassChain.m:17-24 | the search fails with the parse error exactly when the query spells no chain |
| Utf8Repair.AlignLoop | WebDriverAgentLib/Categories/NSDictionary+FBUtf8SafeDictionary.m:25-43 | the nested loops compute the alignment, including the read past the end |
| Utf8Repair.GreedyAlignment | WebDriverAgentLib/Categories/NSDictionary+FBUtf8SafeDictionary.m:27-42 | for every subsequence no read is out of range, all of it is consumed, and each unit of the result is the original or the replacement |
| Utf8Repair.Utf8SafeString | WebDriverAgentLib/Categories/NSDictionary+FBUtf8SafeDictionary.m:15-44 | the method never fails and computes `Repair` |
| Utf8Repair.RepairKeepsLossy | WebDriverAgentLib/Categories/NSDictionary+FBUtf8SafeDictionary.m:21-43 | for every string the kept units spell its lossy conversion |
| Utf8Repair.RepairIsIdealCore | WebDriverAgentLib/Categories/NSDictionary+FBUtf8SafeDictionary.m:15-44 | without a misaligned pair the result is the documented one up to the last well-formed character |
| Utf8Repair.RepairIsSafeIff | WebDriverAgentLib/Categories/NSDictionary+FBUtf8SafeDictionary.m:15-44 | the result can be converted exactly when no pair is misaligned |
| Utf8Repair.RepairAsDocumentedIff | WebDriverAgentLib/Categories/NSDictionary+FBUtf8SafeDictionary.h:16-22 | the documented result comes out exactly when no pair is misaligned and the string does not end in an unpaired surrogate |
| Utf8Repair.RepairIsIdempotentIff | WebDriverAgentLib/Categories/NSDictionary+FBUtf8SafeDictionary.m:15-44 | repairing twice changes nothing more exactly when no pair is misaligned |
| Utf8Repair.DoubledHighIsTorn | WebDriverAgentLib/Categories/NSDictionary+FBUtf8SafeDictionary.m:25-42 | a doubled high surrogate in front of its low one is misaligned |
| Utf8Encoding.WellFormedIffEncoding | WebDriverAgentLib/Categories/NSDictionary+FBUtf8SafeDictionary.m:17-19 | a string counts as convertible exactly when it is the UTF-16 encoding of a sequence of scalar values |
| Utf8Encoding.EncodedIsKept | WebDriverAgentLib/Categories/NSDictionary+FBUtf8SafeDictionary.m:17-19 | such a string comes back as it is |
| Utf8Encoding.RepairedIsEncodingIff | WebDriverAgentLib/Categories/NSDictionary+FBUtf8SafeDictionary.m:15-44 | the repaired string is such an encoding exactly when no pair is misaligned |
| Utf8Encoding.LossyDropsUnpaired | WebDriverAgentLib/Categories/NSDictionary+FBUtf8SafeDictionary.m:21-23 | the lossy conversion drops exactly the units that are high surrogates without a low one after them or low ones without a high one before them |
| Utf8Encoding.RepairReplacesUnpairedIff | WebDriverAgentLib/Categories/NSDictionary+FBUtf8SafeDictionary.h:16-22 | unit by unit: exactly those are replaced and all else is kept, if and only if no pair is misaligned and the last unit is none of them |
| Utf8Containers.Utf8SafeArray | WebDriverAgentLib/Categories/NSDictionary+FBUtf8SafeDictionary.m:50-65 | the loop over an array computes the recursive pass |
| Utf8Containers.Utf8SafeDictionary | WebDriverAgentLib/Categories/NSDictionary+FBUtf8SafeDictionary.m:71-85 | the loop over a dictionary, in any order of its keys, computes the recursive pass |
| Utf8Containers.EveryStringRepaired | WebDriverAgentLib/Categories/NSDictionary+FBUtf8SafeDictionary.m:50-85 | at every depth the containers keep their shape and each string is repaired |
| Utf8Containers.PassIsSafeIff | WebDriverAgentLib/Categories/NSDictionary+FBUtf8SafeDictionary.m:50-85 | the structure becomes convertible exactly when no string in it has a misaligned pair |
| Utf8Containers.ConvertibleIsUnchanged | WebDriverAgentLib/Categories/NSDictionary+FBUtf8SafeDictionary.h:28-34 | a structure that can be converted comes back as it is |
| Utf8Containers.PassIsIdempotentIff | WebDriverAgentLib/Categories/NSDictionary+FBUtf8SafeDictionary.m:50-85 | a second pass changes nothing more exactly when no nested string has a misaligned pair |
| Utf8Containers.PassAsDocumentedIff | WebDriverAgentLib/Categories/NSDictionary+FBUtf8SafeDictionary.h:28-34 | the documented structure comes out exactly when no nested string has a misaligned pair or ends in an unpaired surrogate |
| Utf8Containers.NestedUnits | WebDriverAgentLib/Categories/NSDictionary+FBUtf8SafeDictionary.h:28-34 | where that holds, U+FFFD stands for each unpaired surrogate of each nested string and no other unit changes |
| Snapshots.Snapshot.HasVisibleDescendants | WebDriverAgentLib/Categories/XCUIElement+FBIsVisible.m:37-45 | whether some descendant is cached as visible |
| Snapshots.Snapshot.FbIsVisible | WebDriverAgentLib/Categories/XCUIElement+FBIsVisible.m:47-76 | the answer and the new caches of the whole tree are those of one visibility lookup |
| Snapshots.Snapshot.FbIsAccessibilityElement | WebDriverAgentLib/Categories/XCUIElement+FBAccessibility.m:28-48 | the same for accessibility |
| Snapshots.Snapshot.FbNumericAttribute | WebDriverAgentLib/Categories/XCUIElement+FBMinMax.m:55-73 | the same for a numeric attribute, nil when the fetch fails |
| Snapshots.Snapshot.FbMinValue | WebDriverAgentLib/Categories/XCUIElement+FBMinMax.m:43-47 | the same for the minimum |
| Snapshots.Snapshot.FbMaxValue | WebDriverAgentLib/Categories/XCUIElement+FBMinMax.m:49-53 | the same for the maximum |
| AttributeCache.CacheStaysSound | WebDriverAgentLib/Categories/XCUIElement+FBIsVisible.m:64-67 | in every run every cached entry is the native value of its node and key |
| AttributeCache.VisibilityIsNative | WebDriverAgentLib/Categories/XCUIElement+FBIsVisible.m:47-76 | in every run of any lookups a YES is right, and the answer is native whenever a fetch would succeed |
| AttributeCache.OtherAnswersAreNative | WebDriverAgentLib/Categories/XCUIElement+FBMinMax.m:55-73 | in every run any answer of the other lookups is native |
| AttributeCache.ShortcutIsRightIff | WebDriverAgentLib/Categories/XCUIElement+FBIsVisible.m:54-59 | the shortcut is right for all runs exactly when what is above something visible is natively visible |
| AttributeCache.LookupChangesOwnEntry | WebDriverAgentLib/Categories/XCUIElement+FBMinMax.m:64-68 | a lookup changes at most its own key of its own node |
| AttributeCache.FetchedAtMostOnce | WebDriverAgentLib/Categories/XCUIElement+FBAccessibility.m:30-43 | each attribute of each node is fetched successfully at most once in a run, and never when cached before |
| AttributeCache.CachedIsAnswered | WebDriverAgentLib/Categories/XCUIElement+FBIsVisible.m:49-52 | in every run a cached value is answered as it is, and no cache changes, whatever a fetch would give |
| AttributeCache.VisibleBelowIsAnswered | WebDriverAgentLib/Categories/XCUIElement+FBIsVisible.m:54-59 | in every run an element without a cached visibility is visible when a descendant is cached as visible, and no cache changes, whatever a fetch would give |
| AttributeCache.FetchedIsAnswered | WebDriverAgentLib/Categories/XCUIElement+FBIsVisible.m:61-71 | in every run all other lookups answer what the fetch gives and cache it |
| AttributeCache.VisibleWithoutFetchIff | WebDriverAgentLib/Categories/XCUIElement+FBIsVisible.m:47-76 | when the fetch fails the answer is YES exactly when a non-zero value is cached for the element, or none for it and one for a descendant |
| AccessibilityTree.AccessibilityInfoForElement | WebDriverAgentLib/Categories/XCUIApplication+FBHelpers.m:301-336 | the recursive loop computes the accessibility tree or nil |
| AccessibilityTree.FirstAccessibleMeaning | WebDriverAgentLib/Categories/XCUIApplication+FBHelpers.m:309-314 | an element is first accessible when it is accessible and nothing above it is |
| AccessibilityTree.OriginDescribes | WebDriverAgentLib/Categories/XCUIApplication+FBHelpers.m:328-332 | each info has the data of the element it comes from |
| AccessibilityTree.InfoFields | WebDriverAgentLib/Categories/XCUIApplication+FBHelpers.m:309-332 | each key of an info, from the data of its element |
| AccessibilityTree.OriginKeepsOrder | WebDriverAgentLib/Categories/XCUIApplication+FBHelpers.m:315-327 | ancestors and document order among infos are those of the snapshot tree |
| AccessibilityTree.OriginsAreKept | WebDriverAgentLib/Categories/XCUIApplication+FBHelpers.m:315-327 | every element that is shown or above one that is has an info |
| AccessibilityTree.OriginIsKept | WebDriverAgentLib/Categories/XCUIApplication+FBHelpers.m:315-327 | no other element has one |
| AccessibilityTree.LeafIffShown | WebDriverAgentLib/Categories/XCUIApplication+FBHelpers.m:309-327 | an info is childless, and has value and label, exactly when its element is shown |
| AccessibilityTree.LeavesAreShown | WebDriverAgentLib/Categories/XCUIApplication+FBHelpers.m:301-336 | the leaves, left to right, are the visible ones among the first accessible elements, in document order |
| AccessibilityTree.NoTreeIffNothingShown | WebDriverAgentLib/Categories/XCUIApplication+FBHelpers.m:328-334 | the result is nil exactly when nothing is shown |
| JsonTree.KeysNeverCollide | WebDriverAgentLib/Categories/XCUIApplication+FBHelpers.m:210-227 | renaming attributes to keys is injective and misses the base keys and `children` |
| JsonTree.AddBlockValues | WebDriverAgentLib/Categories/XCUIApplication+FBHelpers.m:219-228 | the loop over the value blocks, in any order, adds an entry for each attribute that is not excluded and has a value |
| JsonTree.DictionaryForElement | WebDriverAgentLib/Categories/XCUIApplication+FBHelpers.m:195-246 | the recursive loop computes the projection, or its root alone |
| JsonTree.ExclusionIsErasure | WebDriverAgentLib/Categories/XCUIApplication+FBHelpers.m:195-246 | the tree with excluded attributes is the full tree with their keys erased at every depth |
| JsonTree.SameNodes | WebDriverAgentLib/Categories/XCUIApplication+FBHelpers.m:234-244 | one node per snapshot, in the same place, about that snapshot |
| JsonTree.EntryOf | WebDriverAgentLib/Categories/XCUIApplication+FBHelpers.m:199-228 | an attribute has an entry exactly when it is supported, not excluded and not nil; base entries are kept |
| JsonTree.KeyIs | WebDriverAgentLib/Categories/XCUIApplication+FBHelpers.m:210-227 | the key of each attribute |
| JsonTree.SupportedIff | WebDriverAgentLib/Categories/XCUIApplication+FBHelpers.m:251-302 | which element types have a placeholder, a minimum and a maximum |
| JsonTree.ValueIs | WebDriverAgentLib/Categories/XCUIApplication+FBHelpers.m:251-302 | a missing placeholder is null, any other missing value has no entry |
| JsonTree.BaseEntries | WebDriverAgentLib/Categories/XCUIApplication+FBHelpers.m:200-206 | the base entries, key by key |
| ActiveApplication.AppsInfo | WebDriverAgentLib/Categories/XCUIApplication+FBHelpers.m:135-159 | one id per process, unknown when there is no answer |
| ActiveApplication.ActiveApplicationWithDefaultBundleId | WebDriverAgentLib/Categories/XCUIApplication+FBHelpers.m:533-606 | the loops select a process by rank of reason and resolve it to an application |
| ActiveApplication.ChoiceIsKnown | WebDriverAgentLib/Categories/XCUIApplication+FBHelpers.m:586-605 | the choice is the on-screen, an active or the system application, the last only when no active process translates |
| ActiveApplication.RequestedIsChosen | WebDriverAgentLib/Categories/XCUIApplication+FBHelpers.m:538-563 | a requested application that is active is chosen if all processes with its id translate |
| ActiveApplication.ChoiceIsUnique | WebDriverAgentLib/Categories/XCUIApplication+FBHelpers.m:533-606 | selection and application are determined by what the services answer |
| ActiveApplication.OnScreenIsChosen | WebDriverAgentLib/Categories/XCUIApplication+FBHelpers.m:566-583 | with several active processes, none of which answers to a requested id, the active process on screen is chosen if it translates; which of the two looks at the screen counts |
| ActiveApplication.MostRecentIsChosen | WebDriverAgentLib/Categories/XCUIApplication+FBHelpers.m:586-605 | where it is not active or does not translate, or only one process is active, the first active process that translates is chosen, and without one the system application |
| ActiveApplication.FirstAnsweringIsChosen | WebDriverAgentLib/Categories/XCUIApplication+FBHelpers.m:546-563 | else the first active process that answers to the id is chosen, or gives way if it does not translate |
| ActiveApplication.RequestedOnScreenIsChosen | WebDriverAgentLib/Categories/XCUIApplication+FBHelpers.m:538-545 | before all of them comes the on-screen process if it answers to the id |
| ActiveApplication.AnswersTo | WebDriverAgentLib/Categories/XCUIApplication+FBHelpers.m:145-156 | no answer counts as the id `unknown` |
| ProjectFile.ReplaceAllSplits | lib/utils.js:104-111 | replacement keeps the text between the occurrences and replaces each of them |
| ProjectFile.PristineIsNeverLost | lib/utils.js:119-152 | over all sessions, crashes and failures but a failed restore, the pristine text is in the backup if there is one and else in the project file |
| ProjectFile.InitIsRun | lib/xcodebuild.js:109-142 | starting a build, with any failures, is a run of the file steps |
| ProjectFile.ResetIsRun | lib/xcodebuild.js:184-189 | so is a reset |
| ProjectFile.InitMeaning | lib/xcodebuild.js:109-142 | the files after a start from the device, the options and the failures: which text is restored, replaced and kept as backup |
| ProjectFile.CompletedInit | lib/xcodebuild.js:130-141 | after any such history a completed start leaves the pristine text with all default ids replaced, or untouched without an id |
| ProjectFile.ResetUndoesInit | lib/xcodebuild.js:184-189 | after any such history a reset undoes every start, completed or not |
| ProjectFile.PristineIsLostIff | lib/utils.js:119-152 | over every history the pristine text is lost at some point exactly when a restore fails on a changed file and a backup is then made |
| ProjectFile.InitLosesPristineIff | lib/utils.js:119-152 | one start loses the pristine text exactly when the restore fails on a changed file and a backup is then made of it |
| ProjectFile.Project.ReplaceInFile | lib/utils.js:104-111 | the file is replaced by its text with all occurrences replaced, or left alone when reading or writing fails |
| ProjectFile.Project.UpdateProjectFile | lib/utils.js:119-131 | the files after an update, for each operation that may fail |
| ProjectFile.Project.ResetProjectFile | lib/utils.js:137-152 | the files after a reset |
| ProjectFile.Project.InitBuild | lib/xcodebuild.js:109-142 | the files after the start of a build |
| ProjectFile.Project.ResetBuild | lib/xcodebuild.js:184-189 | the files after the reset of a build |
| XcodeBuildStart.RunKeepsInvariant | lib/xcodebuild.js:376-469 | what holds after every interleaving of events |
| XcodeBuildStart.ProbesAreBounded | lib/xcodebuild.js:432-453 | at most trunc(timeout / 500) probes, and the proxy timeout is the old one after each |
| XcodeBuildStart.FailingExitRejectsIff | lib/xcodebuild.js:382-398 | in every run every failing exit before an answered probe rejects the start, exactly when it is build-only or the launch timeout is not set below 500 ms |
| XcodeBuildStart.BuildOnlyResolvesIff | lib/xcodebuild.js:386-402 | a build-only start resolves exactly through an exit that does not fail and finds it unsettled |
| XcodeBuildStart.ResolvesWithAnswerIff | lib/xcodebuild.js:426-469 | other starts resolve only with an answered probe exactly when the launch timeout is not set below 500 ms |
| XcodeBuildStart.FirstExitSettles | lib/xcodebuild.js:382-402 | in every run the first exit rejects an unsettled start after a reported failure or with a non-zero code and no signal, else resolves a build-only start, and else changes nothing |
| XcodeBuildStart.FirstExitRejectsIff | lib/xcodebuild.js:382-398 | where an attempt is allowed and no probe was answered, that rejection is final, and exactly those exits reject |
| XcodeBuildStart.BuildOnlyResolvesByEventsIff | lib/xcodebuild.js:386-402 | in terms of events: a build-only start resolves exactly through a first exit with code 0 or a signal, no failure reported before it, of a process that could be started |
| XcodeBuildStart.ReportsFailureIff | lib/xcodebuild.js:348-360 | which lines report a failure |
| XcodeBuildStart.RetriesMeaning | lib/xcodebuild.js:428-433 | an attempt per half second of the timeout, 120 by default |
| XcodeBuildStart.UndisturbedStart | lib/xcodebuild.js:405-417 | without an exit in between a start resolves with the first answer within the allowed attempts and is rejected without one |
| XcodeBuildStart.BuildFailIff | lib/xcodebuild.js:348-363 | the build counts as failed exactly when an earlier start of the object failed, or a line that is not ignored reported an error before the exit and logging is on |
| XcodeBuildStart.ExitDoesNotStopPolling | lib/xcodebuild.js:385-437 | the polling goes on as if exits and log lines had never come |
| XcodeBuildStart.AttemptsRun | lib/xcodebuild.js:432-453 | undisturbed attempts reach the states that the waiting loop computes |
| XcodeBuildStart.XcodeBuild.OnStreamLine | lib/xcodebuild.js:348-363 | the handler is the step for a log line |
| XcodeBuildStart.XcodeBuild.OnProcessExit | lib/xcodebuild.js:382-403 | the handler is the step for an exit |
| XcodeBuildStart.XcodeBuild.WaitForStart | lib/xcodebuild.js:426-469 | the retry loop returns the first answer, throws when there is none, and makes no attempt without retries |
| XcodeBuildStart.XcodeBuild.SpawnAndWait | lib/xcodebuild.js:405-417 | how an undisturbed start settles |
| ProjectCleanup.VersionBox.CleanupProjectIfFresh | lib/webdriveragent.js:291-351 | the new persisted version, whether the project was cleaned, and whether the check threw |
| ProjectCleanup.PersistedIsGreatest | lib/webdriveragent.js:322-350 | with any failures the persisted version is the maximum of the start version and the versions of the launches that did not fail |
| ProjectCleanup.CleansIffRaises | lib/webdriveragent.js:332-350 | a launch cleans exactly when it raises that maximum and cleaning works, so a failed one is retried |
| ProjectCleanup.FaultFreeHistory | lib/webdriveragent.js:296-350 | from any start without failures: running maximum, cleaned exactly when it rises; 5.0.0 starts a legacy install |
| ProjectCleanup.GreatestIsMaximum | lib/webdriveragent.js:332-338 | the maximum bounds, and is one of, the start version and the versions that count |
| ProjectCleanup.AtLeastIff | lib/webdriveragent.js:332-338 | versions compare by their first different number |
| ProjectCleanup.FirstLaunch | lib/webdriveragent.js:296-320 | a new install stores its version without cleaning, a legacy one counts as 5.0.0 |
| ProjectCleanup.FailuresKeepVersion | lib/webdriveragent.js:322-350 | what each failure leaves stored, and when the project is cleaned despite it |
| WebDriverAgent.UrlIsSetIff | lib/webdriveragent.js:637-641 | over every history the url is set exactly when the user gave one or a running agent was cached and not quit since |
| WebDriverAgent.UrlAfterCaching | lib/webdriveragent.js:637-641 | after any history the url is that of the last agent cached, unless it was quit since and the user gave none |
| WebDriverAgent.UrlBeforeCaching | lib/webdriveragent.js:637-641 | and the user's own as long as none was cached |
| WebDriverAgent.ReusableIff | lib/webdriveragent.js:711-732 | which running agents are reused |
| WebDriverAgent.XcodebuildIsThereWhenUsed | lib/webdriveragent.js:87-125 | after any history a launch that uses xcodebuild belongs to an agent that has one |
| WebDriverAgent.Agent.constructor | lib/webdriveragent.js:42-115 | the agent starts valid, with an xcodebuild object exactly when it cannot be skipped |
| WebDriverAgent.Agent.Cache | lib/webdriveragent.js:699-735 | the url is set to that of a reusable running agent, and another agent is uninstalled |
| WebDriverAgent.Agent.CleanupProjectIfFresh | lib/webdriveragent.js:291-294 | the check is skipped without xcodebuild |
| WebDriverAgent.Agent.LaunchAgent | lib/webdriveragent.js:457-505 | which way the agent is launched, exactly when that succeeds, what it does to project file and version, and that xcodebuild is never null where it is used |
| WebDriverAgent.Agent.QuitAgent | lib/webdriveragent.js:609-642 | a url set by caching is gone, one given by the user stays, and the project file is restored |
| ProcessKiller.WaitUntilDead | lib/utils.js:73-91 | the wait succeeds exactly when one poll finds all signalled processes gone |
| ProcessKiller.KillAppUsingPattern | lib/utils.js:56-93 | the signals sent, to whom, and why it stops |
| ProcessKiller.OutlivedBySurvivorIff | lib/utils.js:73-91 | if a process found gone stays gone, a wait fails exactly when one signalled process is alive at every poll |
| ProcessKiller.OutlivedInTurn | lib/utils.js:76-87 | without that, two processes found alive in turn make a wait fail although neither is alive throughout |
| ProcessKiller.KillIsLastResort | lib/utils.js:57-72 | SIGKILL comes third, to the processes matched then, after both waits were outlived: by one process each where the dead stay dead |

## Left out

- Lookup by XPath, by property and by identifier: foreign evaluators, or the predicate search with another predicate.
- Class names and digits outside ASCII in class chain queries, and messages of parse errors.
- Predicate strings: parsing and evaluating them is foreign; they are arbitrary functions of nodes.
- Keys of dictionaries in the UTF-8 pass: the source leaves them as they are, and so does the model.
- Element caches, navigation tracking, action synthesis and the HTTP server: not part of this model.
- Signing, keychains, plist files and the assembly of the xcodebuild command: no property beyond their own text.
- Sessions that use one project at the same time, and torn writes: the backup scheme does not cover them.
- Parsing of urls, and the cached `_url` of the agent: only whether `webDriverAgentUrl` is set is modelled.
- Wall-clock time: waits are bounded numbers of polls.
- The bodies of `prebuild`, `startWithIDB` and `launchWithPreinstalledWDA`: reduced to whether they fail.
- Utf8Repair.RepairIsSafeIff: takes a replacement that is no surrogate, as the only caller does; `RepairKeepsLossy` and `RepairIsIdealCore` hold for every replacement.
- Utf8Repair.RepairAsDocumentedIff: the same restriction on the replacement.
- Utf8Repair.RepairIsIdempotentIff: the same restriction on the replacement.
- ChainRoundTrip.RoundTripIff: takes chains whose class names are known and whose positions the number formatter reads back as it wrote them.
