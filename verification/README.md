# Orchard recipe steps for features and query member bindings

This project models four Orchard recipe steps in Dafny and proves properties about them.

- **Feature import** (`ImportFeatureStep`) reads a `Feature` step. It finds which features to disable and which to enable, in either of two formats:
  - the legacy format, with `disable`/`enable` attributes holding comma-separated ids;
  - the element format, with `disable`/`enable` children holding one `ID` element per feature.
  It checks that every id is available, then asks the feature manager to disable, then to enable.
- **Feature export** (`ExportFeatureStep`) appends a `Feature` element to the recipe's `Orchard` element. The element lists the enabled and/or the disabled features, sorted, as the step's two flags say.
- **Query member binding export** (`BindingBuilderStep`) appends a `QueryMemberBindings` element. It holds one `Binding` element per member binding that has a declaring type, with `Type`, `Member`, `DisplayName` and `Description` attributes.
- **Query member binding import** (`BindingExecutionStep`) reads each `Binding` child of the step. It upserts a record into the member binding table as though (Member, Type, DisplayName) were a unique key.

## Modules

| File | Module | Contents |
|---|---|---|
| `wrappers.dfy` | `Wrappers` | `Option`, `Outcome` (pass or an error), `Result` |
| `text.dfy` | `Text` | the .NET string operations the steps use: `Trim`, `Split(',')`, ordinal case-insensitive equality, and the ordinal order with the sort it defines |
| `xml.dfy` | `Xml` | the XML tree as a value (`Element` / `Text`), `XElement.Value`, `Element(name)`, `Add`, and the recipe document as a class |
| `features.dfy` | `Features` | the step's element names and the feature manager, as a class with id lists and a log of enable/disable calls |
| `import_feature.dfy` | `ImportFeature` | the two parsers, a reference definition of which list each axis takes, validation, and the imperative `Execute` |
| `export_feature.dfy` | `ExportFeature` | `AddFeatures`, the step class with its flags and `Build`, and the round trip into the import step |
| `binding_builder.dfy` | `BindingBuilder` | the shared attribute-name constants, `AddBindings` and `Build` |
| `binding_execution.dfy` | `BindingExecution` | parsing, the table and its upsert, the repository and the step classes, idempotence, and the round trip from the builder |

How the model is built:

- **Import step.**
  - The import step's loops are methods proved against recursive reference functions: `ReadAttributes` and `ReadElements` against `Requested`, and `CheckAvailable` against `CheckIds`.
  - The parsers are functions, since the source writes them as LINQ pipelines.
  - Validation failures (an `InvalidOperationException` in the source) are the `Fail` outcome, which carries the axis and the missing id.
  - Skipped names, which the source logs as warnings, are returned as a list.
- **Export steps.** The export steps change the `RecipeDocument` in place.
- **Binding import step.**
  - The repository is a class holding the rows and the next identity value.
  - The step's loop is proved against `ExecuteStep`, which first reads the bindings (`StepBindings`) and then applies their upserts in order (`UpsertAll`).

## Model

| member | source | states |
|---|---|---|
| Text.TrimStartMeaning | src/Orchard.Web/Modules/Orchard.Modules/Recipes/Executors/ImportFeatureStep.cs:130 | TrimStart keeps a suffix, removes only white space, and the kept part does not start with white space |
| Text.TrimEndMeaning | src/Orchard.Web/Modules/Orchard.Modules/Recipes/Executors/ImportFeatureStep.cs:130 | TrimEnd keeps a prefix, removes only white space, and the kept part does not end with white space |
| Text.Trim | src/Orchard.Web/Modules/Orchard.Modules/Recipes/Executors/ImportFeatureStep.cs:118 | the result has no white space at either end, is no longer than the input, and equals the input when that is already trimmed |
| Text.TrimIsInfix | src/Orchard.Web/Modules/Orchard.Modules/Recipes/Executors/ImportFeatureStep.cs:130 | Trim(s) is a contiguous part of s with only white space before and after it |
| Text.TrimKeepsAbsent | src/Orchard.Web/Modules/Orchard.Modules/Recipes/Executors/ImportFeatureStep.cs:129-130 | trimming never introduces a character, so a comma-free token stays comma-free |
| Text.TrimPadded | src/Orchard.Web/Modules/Orchard.Modules/Recipes/Executors/ImportFeatureStep.cs:130 | Trim removes exactly the white-space padding on either side of a non-empty trimmed text |
| Text.Split | src/Orchard.Web/Modules/Orchard.Modules/Recipes/Executors/ImportFeatureStep.cs:129 | Split always yields at least one piece |
| Text.SplitMeaning | src/Orchard.Web/Modules/Orchard.Modules/Recipes/Executors/ImportFeatureStep.cs:129 | no piece contains the separator, and joining the pieces with it gives back the input, empty pieces included |
| Text.SplitJoin | src/Orchard.Web/Modules/Orchard.Modules/Recipes/Executors/ImportFeatureStep.cs:129 | Split inverts Join for at least one separator-free part |
| Text.LessEqTotal | src/Orchard.Web/Modules/Orchard.Modules/Recipes/Builders/ExportFeatureStep.cs:88-89 | any two ids are ordered one way or the other |
| Text.LessEqAntisymmetric | src/Orchard.Web/Modules/Orchard.Modules/Recipes/Builders/ExportFeatureStep.cs:88-89 | ids ordered both ways are equal |
| Text.LessEqReflexive | src/Orchard.Web/Modules/Orchard.Modules/Recipes/Builders/ExportFeatureStep.cs:88-89 | every id is ordered before itself |
| Text.LessEqTransitive | src/Orchard.Web/Modules/Orchard.Modules/Recipes/Builders/ExportFeatureStep.cs:88-89 | the order is transitive |
| Text.SortedPairwise | src/Orchard.Web/Modules/Orchard.Modules/Recipes/Builders/ExportFeatureStep.cs:88-89 | in a sorted list every earlier id is ordered before every later one |
| Text.Insert | src/Orchard.Web/Modules/Orchard.Modules/Recipes/Builders/ExportFeatureStep.cs:88-89 | inserting into a sorted list keeps it sorted and adds exactly the one id |
| Text.SortIds | src/Orchard.Web/Modules/Orchard.Modules/Recipes/Builders/ExportFeatureStep.cs:88-89 | the ids sorted, a permutation of the input: same multiset and length |
| Xml.FirstElement | src/Orchard.Web/Modules/Orchard.Modules/Recipes/Builders/ExportFeatureStep.cs:46 | the position of the first child element with exactly the name, or none when there is no such element |
| Xml.AppendChildAt | src/Orchard.Web/Modules/Orchard.Modules/Recipes/Builders/ExportFeatureStep.cs:55 | the chosen element gains the child as its last child, and every other node is unchanged |
| Features.FeatureManager.DisableFeatures | src/Orchard.Web/Modules/Orchard.Modules/Recipes/Executors/ImportFeatureStep.cs:99 | the call, with its ids and force flag, is appended to the manager's log |
| Features.FeatureManager.EnableFeatures | src/Orchard.Web/Modules/Orchard.Modules/Recipes/Executors/ImportFeatureStep.cs:106 | the call, with its ids and force flag, is appended to the manager's log |
| ImportFeature.CleanTokens | src/Orchard.Web/Modules/Orchard.Modules/Recipes/Executors/ImportFeatureStep.cs:130-131 | trims each token and drops the empty ones, never yielding more ids than tokens |
| ImportFeature.CleanTokensAreClean | src/Orchard.Web/Modules/Orchard.Modules/Recipes/Executors/ImportFeatureStep.cs:130-131 | every kept token is non-empty and has no surrounding white space |
| ImportFeature.CleanTokensKeepsAbsent | src/Orchard.Web/Modules/Orchard.Modules/Recipes/Executors/ImportFeatureStep.cs:129-131 | a character absent from every token is absent from every kept id |
| ImportFeature.CleanTokensOfClean | src/Orchard.Web/Modules/Orchard.Modules/Recipes/Executors/ImportFeatureStep.cs:130-131 | tokens that are already clean are kept as they are |
| ImportFeature.CleanTokensAppend | src/Orchard.Web/Modules/Orchard.Modules/Recipes/Executors/ImportFeatureStep.cs:130-131 | cleaning goes token by token: the ids of a concatenation are the ids of its parts, in order |
| ImportFeature.CleanTokensDropsBlank | src/Orchard.Web/Modules/Orchard.Modules/Recipes/Executors/ImportFeatureStep.cs:131 | an empty or white-space-only token gives no id |
| ImportFeature.CleanTokensKeepsTrimmed | src/Orchard.Web/Modules/Orchard.Modules/Recipes/Executors/ImportFeatureStep.cs:130 | any other token gives exactly one id, its trimmed text |
| ImportFeature.ParseFeaturesCsv | src/Orchard.Web/Modules/Orchard.Modules/Recipes/Executors/ImportFeatureStep.cs:128-133 | every id of the legacy list is non-empty, trimmed and comma-free |
| ImportFeature.ParseFeaturesCsvJoin | src/Orchard.Web/Modules/Orchard.Modules/Recipes/Executors/ImportFeatureStep.cs:128-133 | any list of clean comma-free ids joined with commas parses back to itself; the empty attribute gives no ids |
| ImportFeature.ParseFeaturesCsvOfTokens | src/Orchard.Web/Modules/Orchard.Modules/Recipes/Executors/ImportFeatureStep.cs:128-133 | comma-free tokens that trim to clean ids, joined with commas, parse to those ids |
| ImportFeature.ParseFeaturesCsvPadded | src/Orchard.Web/Modules/Orchard.Modules/Recipes/Executors/ImportFeatureStep.cs:128-133 | clean comma-free ids padded with white space on either side, joined with commas, parse back to the ids |
| ImportFeature.ParseFeaturesCsvExample | src/Orchard.Web/Modules/Orchard.Modules/Recipes/Executors/ImportFeatureStep.cs:128-133 | "x, y ,,z" parses to x, y, z |
| ImportFeature.IdValues | src/Orchard.Web/Modules/Orchard.Modules/Recipes/Executors/ImportFeatureStep.cs:116-120 | the values taken from ID children are non-empty and trimmed, at most one per child |
| ImportFeature.ParseFeaturesElement | src/Orchard.Web/Modules/Orchard.Modules/Recipes/Executors/ImportFeatureStep.cs:115-121 | the element format yields non-empty trimmed ids, at most one per child |
| ImportFeature.IdValuesAppend | src/Orchard.Web/Modules/Orchard.Modules/Recipes/Executors/ImportFeatureStep.cs:116-120 | the element format reads child by child: the ids of a concatenation are the ids of its parts, in document order |
| ImportFeature.IdValuesSkips | src/Orchard.Web/Modules/Orchard.Modules/Recipes/Executors/ImportFeatureStep.cs:117-119 | a child that is not an element named exactly ID, or whose text is only white space, gives no id |
| ImportFeature.IdValuesReads | src/Orchard.Web/Modules/Orchard.Modules/Recipes/Executors/ImportFeatureStep.cs:117-118 | an ID element with some text gives exactly one id, its trimmed text |
| ImportFeature.IdValuesCaseSensitive | src/Orchard.Web/Modules/Orchard.Modules/Recipes/Executors/ImportFeatureStep.cs:117 | the name comparison is ordinal: a lower-case id element is not read |
| ImportFeature.IdValuesOfTrimmed | src/Orchard.Web/Modules/Orchard.Modules/Recipes/Executors/ImportFeatureStep.cs:115-121 | ID elements whose texts trim to clean ids read back as those ids, in order |
| ImportFeature.IdValuesPadded | src/Orchard.Web/Modules/Orchard.Modules/Recipes/Executors/ImportFeatureStep.cs:115-121 | ID elements holding clean ids padded with white space read back as the ids |
| ImportFeature.LastAttrValueMeaning | src/Orchard.Web/Modules/Orchard.Modules/Recipes/Executors/ImportFeatureStep.cs:43-51 | no list comes from attributes when no attribute names the axis; otherwise the list comes from the last attribute that does |
| ImportFeature.LastElement | src/Orchard.Web/Modules/Orchard.Modules/Recipes/Executors/ImportFeatureStep.cs:58-68 | what it finds is an element |
| ImportFeature.LastElementMeaning | src/Orchard.Web/Modules/Orchard.Modules/Recipes/Executors/ImportFeatureStep.cs:58-68 | no list comes from elements when no child element names the axis; otherwise the list comes from the last child that does |
| ImportFeature.OtherNamesIgnored | src/Orchard.Web/Modules/Orchard.Modules/Recipes/Executors/ImportFeatureStep.cs:43-72 | attributes and child elements naming the other axis, or nothing recognised, inserted at any position leave an axis's list unchanged |
| ImportFeature.AttributeWins | src/Orchard.Web/Modules/Orchard.Modules/Recipes/Executors/ImportFeatureStep.cs:57-68 | once an attribute names the axis, the child elements play no part for it; the list is the last such attribute's |
| ImportFeature.AxisNamesDisjoint | src/Orchard.Web/Modules/Orchard.Modules/Recipes/Executors/ImportFeatureStep.cs:44-48 | no name matches both disable and enable |
| ImportFeature.ReadAttributes | src/Orchard.Web/Modules/Orchard.Modules/Recipes/Executors/ImportFeatureStep.cs:43-55 | the attribute loop yields the reference lists for both axes and the unrecognised attribute names in order |
| ImportFeature.ReadElements | src/Orchard.Web/Modules/Orchard.Modules/Recipes/Executors/ImportFeatureStep.cs:58-72 | the element loop keeps an axis found among attributes, otherwise yields the reference list from elements; it also yields the unrecognised element names |
| ImportFeature.FirstMissing | src/Orchard.Web/Modules/Orchard.Modules/Recipes/Executors/ImportFeatureStep.cs:78-92 | none exactly when every id is available; otherwise the first unavailable position |
| ImportFeature.ValidateMeaning | src/Orchard.Web/Modules/Orchard.Modules/Recipes/Executors/ImportFeatureStep.cs:74-92 | validation passes exactly when every requested id is available; it reports the first missing disable id before any enable id |
| ImportFeature.CheckAvailable | src/Orchard.Web/Modules/Orchard.Modules/Recipes/Executors/ImportFeatureStep.cs:78-92 | the validation loop of one axis fails on the first missing id and passes otherwise |
| ImportFeature.EmptyStepDoesNothing | src/Orchard.Web/Modules/Orchard.Modules/Recipes/Executors/ImportFeatureStep.cs:38-107 | a step naming neither axis requests nothing, passes and makes no manager call |
| ImportFeature.ImportFeatureStep.Execute | src/Orchard.Web/Modules/Orchard.Modules/Recipes/Executors/ImportFeatureStep.cs:37-108 | the outcome is validation of the reference lists. On failure no call is made; on success disable then enable are called with force, each only when non-empty. The warnings are the unrecognised names |
| ImportFeature.ImportFeatureStep.ValidateAndApply | src/Orchard.Web/Modules/Orchard.Modules/Recipes/Executors/ImportFeatureStep.cs:74-107 | both lists are validated before any call; calls are made only when validation passes |
| ExportFeature.IdElements | src/Orchard.Web/Modules/Orchard.Modules/Recipes/Builders/ExportFeatureStep.cs:90 | one ID element per id, in the given order |
| ExportFeature.AddFeatures | src/Orchard.Web/Modules/Orchard.Modules/Recipes/Builders/ExportFeatureStep.cs:86-93 | root gains, as its last child, a list element holding an ID element for each id in sorted order |
| ExportFeature.ExportFeatureStep.constructor | src/Orchard.Web/Modules/Orchard.Modules/Recipes/Builders/ExportFeatureStep.cs:21-24 | enabled features are exported by default, disabled ones are not |
| ExportFeature.ExportFeatureStep.Configure | src/Orchard.Web/Modules/Orchard.Modules/Recipes/Builders/ExportFeatureStep.cs:63-66 | both flags are overwritten from the configuration |
| ExportFeature.ExportFeatureStep.ConfigureDefault | src/Orchard.Web/Modules/Orchard.Modules/Recipes/Builders/ExportFeatureStep.cs:68-71 | enabled on, disabled off |
| ExportFeature.ExportFeatureStep.Build | src/Orchard.Web/Modules/Orchard.Modules/Recipes/Builders/ExportFeatureStep.cs:41-57 | the document is unchanged when both flags are off or there is no Orchard element. Otherwise exactly one Feature element is appended to the first Orchard element, with enable before disable, each list present iff its flag is set. The feature manager's log is unchanged |
| ExportFeature.FeatureListContents | src/Orchard.Web/Modules/Orchard.Modules/Recipes/Builders/ExportFeatureStep.cs:86-93 | the list holds one ID element per registry id, and their texts are the ids as a sorted permutation |
| ExportFeature.IdValuesOfIdElements | src/Orchard.Web/Modules/Orchard.Modules/Recipes/Builders/ExportFeatureStep.cs:90 | the import element parser reads back exactly the clean ids written |
| ExportFeature.FeatureListRoundTrip | src/Orchard.Web/Modules/Orchard.Modules/Recipes/Builders/ExportFeatureStep.cs:86-93 | parsing an exported list yields the sorted ids |
| ExportFeature.ExportedChildren | src/Orchard.Web/Modules/Orchard.Modules/Recipes/Builders/ExportFeatureStep.cs:48-55 | the import step finds in an exported Feature element the enable list iff exported and the disable list iff exported, with no unknown names |
| ExportFeature.ExportedRequests | src/Orchard.Web/Modules/Orchard.Modules/Recipes/Builders/ExportFeatureStep.cs:48-55 | importing an exported Feature element requests the sorted enabled ids iff they were exported, likewise the sorted disabled ids, and warns about nothing |
| ExportFeature.ExportThenImport | src/Orchard.Web/Modules/Orchard.Modules/Recipes/Builders/ExportFeatureStep.cs:41-57 | when every exported id is available, importing the export passes. It disables the sorted disabled ids and then enables the sorted enabled ids, each only when exported and non-empty |
| BindingBuilder.BindingElementsShape | src/Orchard.Web/Modules/Orchard.Projections/Recipes/Builders/BindingBuilderStep.cs:41-47 | at most one element per item; none exactly when no item has a declaring type; each is a childless Binding element with Type, Member, DisplayName, Description |
| BindingBuilder.BindingBuilderStep.AddBindings | src/Orchard.Web/Modules/Orchard.Projections/Recipes/Builders/BindingBuilderStep.cs:38-48 | root gains the Binding elements of the items that have a declaring type, in item order |
| BindingBuilder.BindingBuilderStep.Build | src/Orchard.Web/Modules/Orchard.Projections/Recipes/Builders/BindingBuilderStep.cs:27-36 | the document is unchanged without an Orchard element or without any Binding element; otherwise a QueryMemberBindings element holding them is appended |
| BindingExecution.AttributeValue | src/Orchard.Web/Modules/Orchard.Projections/Recipes/Executors/BindingExecutionStep.cs:27-34 | none exactly when no attribute has the name; otherwise the value of the first that does |
| BindingExecution.ParseBinding | src/Orchard.Web/Modules/Orchard.Projections/Recipes/Executors/BindingExecutionStep.cs:26-35 | succeeds iff all four attributes are present, and then carries the value of the first attribute of each name; otherwise names the first missing one in the order Member, Type, DisplayName, Description |
| BindingExecution.ReadChild | src/Orchard.Web/Modules/Orchard.Projections/Recipes/Executors/BindingExecutionStep.cs:24-35 | reading a child adds at most one binding, and nothing for a child that is not a Binding element |
| BindingExecution.ReadChildMeaning | src/Orchard.Web/Modules/Orchard.Projections/Recipes/Executors/BindingExecutionStep.cs:24-35 | reading one more Binding child keeps the step's reading exact: nothing more after a failure, otherwise the child's binding appended or its error reported |
| BindingExecution.StepBindingsMeaning | src/Orchard.Web/Modules/Orchard.Projections/Recipes/Executors/BindingExecutionStep.cs:24-35 | a passing step reads the binding of every Binding child in document order; a failing step reads those before the first child missing an attribute and reports that child's error |
| BindingExecution.StepBindingsPassIff | src/Orchard.Web/Modules/Orchard.Projections/Recipes/Executors/BindingExecutionStep.cs:24-35 | a step reads without failing exactly when every Binding child has all four attributes |
| BindingExecution.AttributeNamesDistinct | src/Orchard.Web/Modules/Orchard.Projections/Recipes/Builders/BindingBuilderStep.cs:8-13 | the four attribute names differ |
| BindingExecution.MatchingMeaning | src/Orchard.Web/Modules/Orchard.Projections/Recipes/Executors/BindingExecutionStep.cs:37-38 | the fetch returns exactly the records with the key; it is empty iff no record has the key |
| BindingExecution.MatchingIds | src/Orchard.Web/Modules/Orchard.Projections/Recipes/Executors/BindingExecutionStep.cs:42-49 | with distinct ids, a record is among the fetched ids iff it has the key |
| BindingExecution.UpsertMeaning | src/Orchard.Web/Modules/Orchard.Projections/Recipes/Executors/BindingExecutionStep.cs:36-50 | with no match, exactly one record is created with the next id and the element's values. With matches, none is created and each match keeps its id and takes the element's values. Other keys are untouched. Afterwards some record has the key and the description |
| BindingExecution.UpsertKeepsValid | src/Orchard.Web/Modules/Orchard.Projections/Recipes/Executors/BindingExecutionStep.cs:39-49 | ids stay distinct and below the next id |
| BindingExecution.UpsertAllKeepsValid | src/Orchard.Web/Modules/Orchard.Projections/Recipes/Executors/BindingExecutionStep.cs:24-50 | ids stay distinct and below the next id across a step |
| BindingExecution.UpsertAllGrowth | src/Orchard.Web/Modules/Orchard.Projections/Recipes/Executors/BindingExecutionStep.cs:36-50 | the table never shrinks and grows by at most one record per binding |
| BindingExecution.OnlyBindingChildren | src/Orchard.Web/Modules/Orchard.Projections/Recipes/Executors/BindingExecutionStep.cs:24 | only the direct Binding children matter, in document order; at most one binding each |
| BindingExecution.ExecuteStepGrowth | src/Orchard.Web/Modules/Orchard.Projections/Recipes/Executors/BindingExecutionStep.cs:22-51 | a step keeps the table valid and adds at most one record per Binding child |
| BindingExecution.UpsertSettles | src/Orchard.Web/Modules/Orchard.Projections/Recipes/Executors/BindingExecutionStep.cs:36-50 | one more upsert extends the settled state by that binding |
| BindingExecution.UpsertAllSettles | src/Orchard.Web/Modules/Orchard.Projections/Recipes/Executors/BindingExecutionStep.cs:36-50 | after a step every key read has a record, and every record with such a key holds the last binding with it |
| BindingExecution.UpsertAllWhenKeysPresent | src/Orchard.Web/Modules/Orchard.Projections/Recipes/Executors/BindingExecutionStep.cs:42-49 | when all keys already have records, upserts create nothing and leave each record with the last binding of its key |
| BindingExecution.ExecuteStepIdempotent | src/Orchard.Web/Modules/Orchard.Projections/Recipes/Executors/BindingExecutionStep.cs:22-51 | executing the same step again creates no record, changes no value and ends the same way |
| BindingExecution.FailureIsFinal | src/Orchard.Web/Modules/Orchard.Projections/Recipes/Executors/BindingExecutionStep.cs:26-35 | after a failing element the rest of the step is not read |
| BindingExecution.ParseBindingElement | src/Orchard.Web/Modules/Orchard.Projections/Recipes/Executors/BindingExecutionStep.cs:26-35 | an element written by the builder parses to its item's binding |
| BindingExecution.ExportedBindingsReadBack | src/Orchard.Web/Modules/Orchard.Projections/Recipes/Executors/BindingExecutionStep.cs:24-35 | importing an exported step reads, without failing, the binding of every item that has a declaring type, in order |
| BindingExecution.ExportThenImport | src/Orchard.Web/Modules/Orchard.Projections/Recipes/Executors/BindingExecutionStep.cs:22-51 | importing an export into any table upserts those bindings in order and passes |
| BindingExecution.BindingRepository.Fetch | src/Orchard.Web/Modules/Orchard.Projections/Recipes/Executors/BindingExecutionStep.cs:37-38 | returns the records with the key, in table order |
| BindingExecution.BindingRepository.Create | src/Orchard.Web/Modules/Orchard.Projections/Recipes/Executors/BindingExecutionStep.cs:39-41 | appends a record with the next id and the binding's values, and advances the next id |
| BindingExecution.BindingRepository.Update | src/Orchard.Web/Modules/Orchard.Projections/Recipes/Executors/BindingExecutionStep.cs:44-47 | the record with the given id takes the given values; others are unchanged |
| BindingExecution.BindingExecutionStep.Execute | src/Orchard.Web/Modules/Orchard.Projections/Recipes/Executors/BindingExecutionStep.cs:22-51 | the repository ends as the reference step leaves it, with the same outcome, and stays valid |
| BindingExecution.BindingExecutionStep.UpsertRecord | src/Orchard.Web/Modules/Orchard.Projections/Recipes/Executors/BindingExecutionStep.cs:36-50 | fetch, then create or update each match, is the upsert of one binding |
| BindingExecution.BindingExecutionStep.UpdateEach | src/Orchard.Web/Modules/Orchard.Projections/Recipes/Executors/BindingExecutionStep.cs:42-49 | updating each fetched record under its own id overwrites exactly the records with the key |

## Left out

- XML namespaces, `XName` details, comments, CDATA and processing instructions: names are local names and a node is an element or text.
- Culture-aware string handling:
  - `StringComparison.OrdinalIgnoreCase` folds ASCII letters only.
  - The culture-sensitive default comparer behind `OrderBy` is replaced by the ordinal order on characters, which is total.
- Text.IsWhiteSpace: lists the characters .NET 4.0 `char.IsWhiteSpace` accepts, U+180E included. Later frameworks built on Unicode 6.3 or later no longer trim U+180E; the model does not follow them.
- `Logger.Information` lines have no effect and are not modelled. The warnings are returned as a list of names instead of being logged.
- Feature manager internals: what `DisableFeatures`/`EnableFeatures` with `force` do to features and their dependencies. The manager is given by its available, enabled and disabled ids and records the calls made to it.
- ExportFeature.ExportFeatureStep.Configure: takes the two flags already decoded. The `Attr<bool>` extension that reads them from the configuration element is not part of this model.
- `BuildEditor` and `UpdateEditor` (editor shapes and MVC model binding), and the steps' `Name`, `DisplayName`, `Description`, `Position` and `Priority` properties.
- The member binding provider and `BindingBuilder.Build`: the items they produce are a constant of the builder step. A null declaring type is `None`, and its `FullName` is the string inside `Some`.
- The NHibernate repository:
  - Fetch compares with exact string equality rather than the database collation, and returns records in table order.
  - Identity values come from a counter starting at 1.
  - Flushing and transactions are not modelled; a created record is visible to later elements of the same step.
- BindingExecution.BindingExecutionStep.Execute: the source throws a `NullReferenceException` when an attribute is missing. Here that is the `MissingAttribute` outcome. Records upserted earlier in the step are kept, as in the source.
- The text of the `InvalidOperationException` message: the error carries the axis and the id the message names.
- Null steps, null ids and null attribute values are not representable.
- `ListFilterForm.cs` and `ContentDetailsViewModel.cs` are not part of this model.
