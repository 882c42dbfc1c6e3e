# Mono.ApiTools.NuGetDiff — a Dafny model of the API comparison core

Mono.ApiTools describes the public surface of .NET assemblies as XML and compares two such descriptions. This project models the parts of it that are pure logic, as immutable datatypes and total functions with proved contracts. There are five parts:

- **The API info extractor** (`Mono.ApiTools.ApiInfo`) walks an assembly's metadata and writes one XML description per assembly. The model covers the decisions the extractor makes:
  - which types and members are described (visibility, ABI mode, nesting, forwarders);
  - how each is classified and named (type kinds, charset and layout, signature strings, type-name cleanup);
  - the order in which they are written (the definition comparers);
  - how custom attributes and their constructor arguments become property values;
  - how the well-formed XML writer validates and escapes characters.

  Metadata records carry only the flags and fields the code reads. Flag values are the ones in ECMA-335 Partition II, sections 23.1.5, 23.1.10, 23.1.13 and 23.1.15.
- **The XML API diff** (`Mono.ApiTools.ApiDiff`) compares two descriptions. It works as a keyed, hierarchical comparison:
  - every sibling group is indexed by a derived key;
  - items are present, missing (only in the first description) or extra (only in the second);
  - matched items produce scalar warnings;
  - counters roll up through the four merge operators of `Counters`.

  An XML document is the tree `Node(name, attrs, children)`.
- **The formatted diff** (`Mono.ApiTools.ApiDiffFormatted`) collects and renders the changes of one member group. The model covers how changes are collected and filtered, and the order in which they are rendered.
- **The NuGet package diff** (`Mono.ApiTools.NuGetDiff/NuGetDiff.cs`, `NuGetDiffResult.cs`) works on two packages. It:
  - splits their target frameworks and their assemblies into added, removed and unchanged;
  - totals the per-assembly counts;
  - chooses output file names.
- **The nuspec diff** (`NuGetSpecDiff.cs`, `XElementExtensions.cs`) compares package metadata element by element, after stripping namespaces and version metadata.

Hashtables and dictionaries are association lists kept in insertion order (module `Tables`). The core relies on some foreign code. That code becomes function parameters whose laws are stated where a proof needs them:
- culture-sensitive string comparison;
- `Enum.ToString`;
- regular expressions;
- Cecil resolution and `TypeHelper`;
- renderers.

## Model

| member | source | states |
|---|---|---|
| Counters.AddPartialToPartial | Mono.ApiTools.ApiDiff/Counters.cs:36-45 | the other element's partial present, extra, missing, todo and warning counts are added to both this element's partial counts and its totals; the error total is left alone |
| Counters.AddPartialToTotal | Mono.ApiTools.ApiDiff/Counters.cs:47-55 | the other element's partial counts are added to this element's totals only; partial counts and the error total stay as they were |
| Counters.AddTotalToPartial | Mono.ApiTools.ApiDiff/Counters.cs:57-66 | the other element's totals are added to this element's partial counts and, through AddTotalToTotal, to its totals |
| Counters.AddTotalToTotal | Mono.ApiTools.ApiDiff/Counters.cs:68-77 | every total of the other element, the error total included, is added to this element's totals; partial counts stay |
| Counters.MergesAreAdditions | Mono.ApiTools.ApiDiff/Counters.cs:36-77 | each of the four merges adds to the counts a delta that depends on the other element alone |
| Counters.PartialDeltaClosed | Mono.ApiTools.ApiDiff/Counters.cs:36-55 | deltas of partial-to-partial merges (every total mirrors its partial count, no error) include zero and are closed under addition |
| Counters.MergeCommutes | Mono.ApiTools.ApiDiff/Counters.cs:36-77 | merging two children into a parent gives the same counts in either order, for each kind of merge |
| Counters.MergeZero | Mono.ApiTools.ApiDiff/Counters.cs:32-77 | merging a freshly constructed (all-zero) Counters changes nothing |
| Counters.MergeAll | Mono.ApiTools.ApiDiff/Counters.cs:36-45 | merging a sequence of children partial-to-partial never changes the error total |
| Counters.MergeAllIsSum | Mono.ApiTools.ApiDiff/Counters.cs:36-45 | merging a sequence of children adds the sum of their deltas |
| Counters.MergeOrderIrrelevant | Mono.ApiTools.ApiDiff/Counters.cs:36-45 | any permutation of the children gives the parent the same counts |
| Strings.Wrap32 | Mono.ApiTools.NuGetDiff/NuGetDiff.cs:352-354 | the int addition wraps into the signed 32-bit range and leaves in-range values alone |
| Strings.Wrap32Congruent | Mono.ApiTools.NuGetDiff/NuGetDiff.cs:352-354 | the wrapped sum is the one 32-bit value congruent to the true sum modulo 2^32 |
| Strings.ParseInt32Padded | Mono.ApiTools.ApiDiff/XMLMember.cs:86-89 | `Int32.Parse` ignores white space before and after the number: padded text parses exactly as the bare text does |
| Strings.NumberTextPadded | Mono.ApiTools.ApiDiff/XMLMember.cs:86-89 | the text `Int32.Parse` reads is exactly what lies between the leading and trailing white space |
| Strings.ParseBoolPadded | Mono.ApiTools.ApiDiff/XMLParameter.cs:43-46 | `bool.Parse` ignores white space and NUL characters around the word: padded text parses exactly as the bare text does |
| Strings.BoolTextPadded | Mono.ApiTools.ApiDiff/XMLParameter.cs:43-46 | the text `bool.Parse` compares is exactly what lies between the surrounding white space and NUL characters |
| Strings.OrdinalIsUtf16 | Mono.ApiTools.ApiInfo/Data/MethodDefinitionComparer.cs:52 | the ordinal comparison is the lexicographic order of the two strings' UTF-16 code units, a proper prefix first |
| Strings.OrdinalSurrogateExample | Mono.ApiTools.ApiInfo/Data/MemberReferenceComparer.cs:24 | a character above U+FFFF orders before U+FFFF, as its leading surrogate does, not after it as its code point would |
| Strings.OrdinalZeroIffEqual | Mono.ApiTools.ApiInfo/Data/MemberReferenceComparer.cs:24 | the ordinal comparison reports equality exactly for equal strings |
| Strings.OrdinalAntisymmetric | Mono.ApiTools.ApiInfo/Data/MemberReferenceComparer.cs:24 | swapping the two strings negates the ordinal comparison |
| Strings.OrdinalTransitive | Mono.ApiTools.ApiInfo/Data/MemberReferenceComparer.cs:24 | the ordinal comparison's "not after" is transitive |
| Strings.ParseInt32 | Mono.ApiTools.ApiDiff/XMLMember.cs:86-89 | a parsed value lies in the signed 32-bit range, and the text between the surrounding white space is an optional sign followed by decimal digits only |
| Strings.ParseInt32Result | Mono.ApiTools.ApiDiff/XMLMember.cs:86-89 | `Int32.Parse` succeeds exactly when the text holds a 32-bit number, with that number, and throws otherwise |
| Strings.IntToStringRoundTrip | Mono.ApiTools.ApiDiff/XMLMember.cs:86-89 | every 32-bit value written as decimal text parses back to itself |
| Strings.ParseBool | Mono.ApiTools.ApiDiff/XMLParameter.cs:43-46 | `bool.Parse` succeeds exactly when the trimmed word is "true" or "false" in any letter case, yields true for the first, and otherwise throws FormatException |
| Strings.ParseBoolRoundTrip | Mono.ApiTools.ApiDiff/XMLParameter.cs:43-46 | the text `bool.ToString` writes, and the lower-case words, parse back to the value |
| XmlChars.IsInvalid | Mono.ApiTools.ApiInfo/WellFormedXmlWriter.cs:17-40 | the cascade of range tests rejects exactly the code units that the Char production of section 2.2 of the XML 1.0 specification excludes |
| XmlChars.ScanFindsFirstStray | Mono.ApiTools.ApiInfo/WellFormedXmlWriter.cs:44-56 | the scan from any index that has seen no stray unit stops at the first unit that is neither an XML character nor half of a high-then-low surrogate pair, and gives -1 when there is none |
| XmlChars.IndexOfInvalid | Mono.ApiTools.ApiInfo/WellFormedXmlWriter.cs:42-57 | the index of the first unit that must be escaped in the whole string, or -1 when it may be written as it is |
| XmlChars.IndexOfInvalidIn | Mono.ApiTools.ApiInfo/WellFormedXmlWriter.cs:59-77 | an ArgumentOutOfRangeException("length") exactly when the buffer is shorter than start + length, an index error for a negative start, -1 for an empty range, otherwise the first stray unit of the range (a pair cut by the range's end counts as stray) |
| XmlChars.Hex | Mono.ApiTools.ApiInfo/WellFormedXmlWriter.cs:108-110 | `{0:Xn}` writes exactly n upper-case hexadecimal digits |
| XmlChars.HexRoundTrip | Mono.ApiTools.ApiInfo/WellFormedXmlWriter.cs:108-110 | the digits read back as the value written, for every value below 16^n |
| XmlChars.Escape | Mono.ApiTools.ApiInfo/WellFormedXmlWriter.cs:108-110 | a stray unit is written as `\x` and two digits below 0x80 and `\u` and four digits otherwise, and the escape itself holds no invalid unit |
| XmlChars.EscapeRoundTrip | Mono.ApiTools.ApiInfo/WellFormedXmlWriter.cs:108-110 | the digits of an escape spell the escaped unit |
| XmlChars.WriteChars | Mono.ApiTools.ApiInfo/WellFormedXmlWriter.cs:100-116 | the loop writes the reference filtering of the slice: each stray unit replaced by its escape, every other unit copied, in order |
| XmlChars.WriteString | Mono.ApiTools.ApiInfo/WellFormedXmlWriter.cs:84-98 | writing the clean prefix and then the rest through WriteChars gives the reference filtering of the whole text |
| XmlChars.CleanTextUnchanged | Mono.ApiTools.ApiInfo/WellFormedXmlWriter.cs:93-97 | text in which no unit is stray is written unchanged |
| XmlData.TodoIffSuffix | Mono.ApiTools.ApiDiff/XMLData.cs:56-68 | an attribute name counts as a TODO marker exactly when it is not null and ends with one of the listed suffixes (the `TODOAttribute` test subsumes the commented-out ones) |
| XmlData.MeaninglessIsNotTodo | Mono.ApiTools.ApiDiff/XMLData.cs:47-68 | the compiler-generated marker the diff ignores is never taken for a TODO marker |
| XmlData.AddExtra | Mono.ApiTools.ApiDiff/XMLData.cs:77-85 | an extra element is marked `presence="extra"` and counted as one ok and one extra item, partial and total; nothing else changes |
| XmlData.WritePartialCounters | Mono.ApiTools.ApiDiff/XMLData.cs:89-110 | writing the partial counts keeps every attribute whose name is not one of theirs; what it writes under its own seven names is stated by ClassificationWritten and OutcomeCountsWritten |
| XmlData.ClassificationWritten | Mono.ApiTools.ApiDiff/XMLData.cs:89-96 | `missing`, `present` and `extra` are present exactly when their count is positive (or they were there before), holding the decimal count |
| XmlData.OutcomeCountsWritten | Mono.ApiTools.ApiDiff/XMLData.cs:98-110 | `ok`, `todo` and `warning` are present exactly when their count is positive (or they were there before) and then hold the decimal count; `complete` is present exactly when the total is positive (or it was there before) and then holds the decimal percentage of ok items |
| XmlData.PercentAsWritten | Mono.ApiTools.ApiDiff/XMLData.cs:101-104 | the percentage as the code computes it (`100 * ok` wrapped to 32 bits, then divided with truncation) agrees with the true percentage whenever `100 * ok` fits in 32 bits |
| XmlData.PercentAsWrittenWraps | Mono.ApiTools.ApiDiff/XMLData.cs:101-104 | with ok = total = 21474837 the code writes -99 where 100 is meant, because `100 * ok` overflows |
| XmlData.PercentInRange | Mono.ApiTools.ApiDiff/XMLData.cs:101-104 | with no negative count and no more unfinished than present items the percentage lies in 0..100 |
| XmlData.WriteTotalCounts | Mono.ApiTools.ApiDiff/XMLData.cs:112-122 | each subtree total is written exactly when positive, as its decimal text, and other attributes are kept |
| XmlData.WriteTotalRatios | Mono.ApiTools.ApiDiff/XMLData.cs:124-136 | `complete_total` is the truncated percentage of ok totals, `todo_total` and `error_total` are written together when the todo total is positive but `error_total` carries the partial todo count, `warning_total` when positive |
| XmlData.TotalsReadBack | Mono.ApiTools.ApiDiff/XMLData.cs:112-136 | the `missing_total`, `extra_total` and `warning_total` written read back with Int32.Parse as the counts they came from |
| XmlData.AddWarning | Mono.ApiTools.ApiDiff/XMLData.cs:140-154 | a warning adds one to the warning count, flags the element `error="warning"` and appends a `warning` child carrying the text to the first `warnings` child, creating it at the end when missing |
| XmlData.AddWarningAppends | Mono.ApiTools.ApiDiff/XMLData.cs:140-154 | the texts of the element's warnings become the old texts followed by the new one |
| XmlData.AddWarnings | Mono.ApiTools.ApiDiff/XMLData.cs:140-154 | several warnings in a row count one each and leave the element untouched when there are none |
| XmlData.AddWarningsAppends | Mono.ApiTools.ApiDiff/XMLData.cs:140-154 | the recorded warning texts are exactly the given texts appended in order |
| XmlData.MarkTodo | Mono.ApiTools.ApiDiff/XMLClass.cs:150-155 | a TODO marker flags the element `error="todo"` and, when the marker carried a message, writes it as `comment`; otherwise the comment is left as it was |
| NodeComparer.NodeOrder | Mono.ApiTools.ApiDiff/XmlNodeComparer.cs:24-29 | two elements compare as the string comparison of their `name` attributes |
| NodeComparer.OrderReadsNamesOnly | Mono.ApiTools.ApiDiff/XmlNodeComparer.cs:24-29 | elements with the same names compare alike, whatever else they hold |
| NodeComparer.EqualNamesCompareEqual | Mono.ApiTools.ApiDiff/XmlNodeComparer.cs:24-29 | elements of equal name compare as 0 under a string comparison |
| NodeComparer.SwapFlipsSign | Mono.ApiTools.ApiDiff/XmlNodeComparer.cs:24-29 | swapping the arguments flips the sign of the result and keeps 0 at 0 |
| NodeComparer.NodeOrderIsPreorder | Mono.ApiTools.ApiDiff/XmlNodeComparer.cs:24-29 | a string comparison makes the element order a total preorder |
| NodeComparer.SortNodes | Mono.ApiTools.ApiDiff/XMLNamespace.cs:100 | `Array.Sort(nodes, XmlNodeComparer.Default)` returns a permutation of the elements, in non-decreasing name order |
| NameGroup.ItemNode | Mono.ApiTools.ApiDiff/XMLNameGroup.cs:69-73 | a fresh item element carries the display name as `name` and no children |
| NameGroup.OwnPass | Mono.ApiTools.ApiDiff/XMLNameGroup.cs:67-84 | the walk over the first side writes one item per entry and removes each matched key from the second side's table, leaving exactly the keys the first side lacks |
| NameGroup.OwnPassCounts | Mono.ApiTools.ApiDiff/XMLNameGroup.cs:75-82 | each key of the first side is counted once: present when the second side has it, missing otherwise |
| NameGroup.ExtraNodes | Mono.ApiTools.ApiDiff/XMLNameGroup.cs:86-94 | each leftover of the second side becomes an item marked `presence="extra"`, in table order |
| NameGroup.CompareGroup | Mono.ApiTools.ApiDiff/XMLNameGroup.cs:54-98 | the counts are the sizes of the key intersection (present), of the first side's own keys (missing) and of the second side's own keys (extra); with no second side every item is missing and none is extra; the group element is appended to the parent exactly when it has items |
| NameGroup.OwnPassInner | Mono.ApiTools.ApiDiff/XMLNameGroup.cs:75-78 | the per-item comparisons' counts, summed, keep any property that holds of zero and survives addition, and the walk cannot fail when no comparison can |
| NameGroup.CompareGroupInner | Mono.ApiTools.ApiDiff/XMLNameGroup.cs:54-98 | the same for a whole group comparison |
| NameGroup.OwnPassConstInner | Mono.ApiTools.ApiDiff/XMLNameGroup.cs:75-78 | when every matched item adds the same warning count, the walk's inner count is that count per present item |
| NameGroup.CompareGroupConstInner | Mono.ApiTools.ApiDiff/XMLNameGroup.cs:54-98 | the same for a whole group comparison |
| NameGroup.LoadGroup | Mono.ApiTools.ApiDiff/XMLNameGroup.cs:25-43 | an element of another name is a FormatException("Expecting <group>"); an empty group loads as the initial state |
| NameGroup.LoadChildren | Mono.ApiTools.ApiDiff/XMLNameGroup.cs:34-42 | a child without a `name` attribute makes loading fail (the source dereferences null) |
| NameGroup.LoadPlain | Mono.ApiTools.ApiDiff/XMLNameGroup.cs:33-42 | a plain group holds each child's name once, later duplicates overwriting earlier ones |
| NameGroup.ComparePlain | Mono.ApiTools.ApiDiff/XMLNameGroup.cs:54-112 | comparing plain groups cannot fail, records no inner counts, and counts present, missing and extra keys by the set sizes above |
| GenericGroup.LoadGenericGroup | Mono.ApiTools.ApiDiff/XMLGenericGroup.cs:23-26 | loading a constraint group keeps the name-group checks and stores a `generic-attribute` string only when the group has children |
| GenericGroup.LastChildWins | Mono.ApiTools.ApiDiff/XMLGenericGroup.cs:23-26 | the stored string is the last child's, whatever the earlier children held |
| GenericGroup.GenericWarnings | Mono.ApiTools.ApiDiff/XMLGenericGroup.cs:33-34 | a matched item gets one warning exactly when the two groups' strings differ |
| GenericGroup.GenericInner | Mono.ApiTools.ApiDiff/XMLGenericGroup.cs:28-35 | the warning is written on the item and counted once in the group's own counts |
| GenericGroup.CompareGenericGroup | Mono.ApiTools.ApiDiff/XMLGenericGroup.cs:28-35 | comparing constraint groups cannot fail, classifies items as a plain name group does, and adds one warning per present item when the strings differ |
| Member.LoadMemberExtra | Mono.ApiTools.ApiDiff/XMLMember.cs:25-48 | an `attrib` attribute is stored under the item's key, overwriting an earlier entry, and the first `attributes` child, when there is one, is loaded into the attribute table under that key |
| Member.SecurityChecksDead | Mono.ApiTools.ApiDiff/XMLMethods.cs:160-173 | after the reserved mask is cleared, neither the `HasSecurity` nor the `RequireSecObject` test can succeed |
| Member.MethodAccessMapping | Mono.ApiTools.ApiDiff/XMLMethods.cs:158-179 | without `PinvokeImpl`, any value with a `FamORAssem` bit set reads as `Family` and the other access values are kept; every bit outside the access, reserved and vtable-layout masks is kept |
| Member.PinvokeUsesRawValue | Mono.ApiTools.ApiDiff/XMLMethods.cs:176-177 | with `PinvokeImpl` set, the result is the raw value less that bit, its reserved and access bits not normalised |
| Member.ConvertToString | Mono.ApiTools.ApiDiff/XMLMember.cs:95-98 | properties keep the base version and render `null`; methods, fields and events render a non-empty string |
| Member.AccessWarnings | Mono.ApiTools.ApiDiff/XMLMember.cs:77-92 | no `attrib` on the first side means no warning; otherwise the comparison fails exactly when one of the present values is not an `Int32`, and yields at most one warning |
| Member.AccessWarnsIffDiffers | Mono.ApiTools.ApiDiff/XMLMember.cs:77-92 | for methods, fields and events there is a warning exactly when the second side has no `attrib` or the normalised values differ |
| Member.PropertyAccessWarnsIffAbsent | Mono.ApiTools.ApiDiff/XMLMember.cs:86-92 | a property warns about its access only when the second side has no `attrib` |
| Member.MemberInner | Mono.ApiTools.ApiDiff/XMLMember.cs:50-93 | the comparison fails exactly when the access comparison does; a TODO marker on the second side's attributes adds one to the TODO and error counts and nothing to the TODO total; with no attributes on either side only the access warning is counted |
| Methods.ReadFlags | Mono.ApiTools.ApiDiff/XMLMethods.cs:48-56 | each of the abstract, virtual, static and final flags is set exactly when the element has that attribute with the text "true" |
| Methods.FlagsWarnings | Mono.ApiTools.ApiDiff/XMLMethods.cs:114-130 | differing signature flags give exactly one warning, worded "should not be" when this side has none and "should be" when the other side has none |
| Methods.MethodKey | Mono.ApiTools.ApiDiff/XMLMethods.cs:86-101 | a method that is not an `op_` operator is keyed by its name; every key ends with the method's name |
| Methods.OperatorKeysDiffer | Mono.ApiTools.ApiDiff/XMLMethods.cs:95-99 | two operators of one name with different return types get different keys, so they are never matched with each other |
| Methods.LoadMethodExtra | Mono.ApiTools.ApiDiff/XMLMethods.cs:38-84 | the return type is stored when written, the flags only when one is set, and a parameter group exists under the key exactly when one existed before or the element has a `parameters` child |
| Methods.LoadMethods | Mono.ApiTools.ApiDiff/XMLMethods.cs:38-101 | loading a group of another element name fails with "Expecting <methods>"-style FormatException |
| Methods.LoadedMethodsWellFormed | Mono.ApiTools.ApiDiff/XMLMethods.cs:57-61 | after loading, the key table holds no repeats and no stored flags value is `None` |
| Methods.FinalNeedsFinalAttribute | Mono.ApiTools.ApiDiff/XMLMethods.cs:55-56 | the `Final` flag is read only from a `final` attribute |
| Methods.ReturnTypeWarnings | Mono.ApiTools.ApiDiff/XMLMethods.cs:132-140 | one warning exactly when this group recorded any return type and the two sides' return types for the key differ |
| Methods.CompareMethodParameters | Mono.ApiTools.ApiDiff/XMLMethods.cs:142-146 | with no parameters recorded nothing happens; otherwise the comparison fails (a null dereference) exactly when this method has no parameter group or the other group recorded none; warnings only grow |
| Methods.MethodWarnings | Mono.ApiTools.ApiDiff/XMLMethods.cs:123-140 | the method's own warnings are the flags warning and the return-type warning |
| Methods.MethodChecks | Mono.ApiTools.ApiDiff/XMLMethods.cs:110-146 | the checks fail exactly when the access flags cannot be parsed or the parameter lookup dereferences null, and count at least the method's own warnings |
| Methods.MethodInner | Mono.ApiTools.ApiDiff/XMLMethods.cs:103-156 | with no second group nothing is counted; otherwise the fresh counters are merged partially, so every warning is also counted in the warning total |
| Methods.PlainMethodCounts | Mono.ApiTools.ApiDiff/XMLMethods.cs:103-156 | a method without attributes or parameters on either side adds exactly its access, flags and return-type warnings, each once partially and once in total |
| Methods.MethodItem | Mono.ApiTools.ApiDiff/XMLMethods.cs:103-156 | the per-item comparison never fails without a second group and always yields warning-balanced counts |
| Methods.CompareMethods | Mono.ApiTools.ApiDiff/XMLNameGroup.cs:54-98 | comparing method groups classifies keys as present, missing and extra by set sizes, and the inner counts carry every warning in the total too |
| Parameters.OptionalBool | Mono.ApiTools.ApiDiff/XMLParameter.cs:43-46 | an absent `unsafe` or `optional` attribute reads as false; a present one goes through `Boolean.Parse`, which may throw |
| Parameters.LoadParameter | Mono.ApiTools.ApiDiff/XMLParameter.cs:30-59 | an element not named `parameter` is an ArgumentException; a missing `name`, `type` or `attrib` is a null dereference; a loaded parameter holds exactly the element's attributes, and has custom attributes exactly when its first child is `attributes` |
| Parameters.ParameterWarnings | Mono.ApiTools.ApiDiff/XMLParameter.cs:67-86 | at most one warning per scalar field, seven in all |
| Parameters.ParameterWarningsIffDiffer | Mono.ApiTools.ApiDiff/XMLParameter.cs:67-86 | there is no scalar warning exactly when the two parameters agree on name, type, attributes, direction, unsafe, optional and default value; swapping the sides keeps the count |
| Parameters.MissingDefaultShown | Mono.ApiTools.ApiDiff/XMLParameter.cs:85-86 | a missing default value is shown as "(no default value)" in the warning |
| Parameters.CompareParameter | Mono.ApiTools.ApiDiff/XMLParameter.cs:61-103 | without custom attributes only the scalar warnings are counted; a TODO marker on the second side's attributes counts one TODO and one error and writes `error="todo"` on the element |
| Parameters.LoadParameters | Mono.ApiTools.ApiDiff/XMLParameters.cs:27-44 | an element not named `parameters` is a FormatException; a loaded group has one entry per child, keyed by its `position`, holding that child's loaded parameter, with no repeated key |
| Parameters.LoadParameterList | Mono.ApiTools.ApiDiff/XMLParameters.cs:36-43 | the loop appends one entry per child after those already loaded and keeps keys distinct |
| Parameters.RepeatedPositionThrows | Mono.ApiTools.ApiDiff/XMLParameters.cs:41 | two children at the same position make loading fail, as `Hashtable.Add` throws on a duplicate key |
| Parameters.ParameterInner | Mono.ApiTools.ApiDiff/XMLParameters.cs:84-88 | a matched position compares the two parameters and merges the counts partial-to-partial; it cannot fail |
| Parameters.CompareParameters | Mono.ApiTools.ApiDiff/XMLParameters.cs:63-108 | comparing parameter groups cannot fail and classifies positions as present, missing and extra by set sizes; the inner counts carry every warning in the total too |
| Properties.PropertyKeyInjective | Mono.ApiTools.ApiDiff/XMLProperties.cs:68-76 | when neither name nor type contains `:`, two properties share the `name:ptype:params` key exactly when they agree on all three attributes (absent ones reading as empty) |
| Properties.LoadPropertyExtra | Mono.ApiTools.ApiDiff/XMLProperties.cs:49-66 | the first `methods` child, when there is one, is loaded as the property's accessor group under its key; otherwise the accessor table is unchanged |
| Properties.LoadProperties | Mono.ApiTools.ApiDiff/XMLProperties.cs:49-83 | an element not named `properties` is a FormatException("Expecting <properties>") |
| Properties.CompareAccessors | Mono.ApiTools.ApiDiff/XMLProperties.cs:30-40 | without accessors on either side nothing changes; with none on the second side the comparison cannot fail; the accessor counts are merged partially and warnings only grow |
| Properties.PropertyInner | Mono.ApiTools.ApiDiff/XMLProperties.cs:24-47 | the counts are balanced between warning and warning total; without accessors on the second side the comparison fails exactly when the access flags do not parse; a plain property counts just its access warning |
| Properties.PlainPropertyWarnsIffNoAccess | Mono.ApiTools.ApiDiff/XMLProperties.cs:24-47 | a property with no accessors or attributes warns once exactly when the second side wrote no access flags, since properties render their flags as `null` on both sides |
| Properties.PropertyItem | Mono.ApiTools.ApiDiff/XMLProperties.cs:24-47 | the per-item comparison never fails without a second group and always yields warning-balanced counts |
| Properties.CompareProperties | Mono.ApiTools.ApiDiff/XMLNameGroup.cs:54-98 | comparing property groups classifies keys as present, missing and extra by set sizes, with warning-balanced inner counts |
| Events.LoadEventExtra | Mono.ApiTools.ApiDiff/XMLEvents.cs:26-50 | the event type is stored under the key when written, and the first `methods` child, when there is one, is loaded as the event's accessor group |
| Events.LoadEvents | Mono.ApiTools.ApiDiff/XMLEvents.cs:26-50 | an element not named `events` is a FormatException("Expecting <events>") |
| Events.EventTypeWarnings | Mono.ApiTools.ApiDiff/XMLEvents.cs:63-70 | one warning exactly when the two sides' event types for the key differ |
| Events.TypedEventChecks | Mono.ApiTools.ApiDiff/XMLEvents.cs:63-80 | without accessors on the second side these checks cannot fail; they count at least the event-type warning |
| Events.EventInner | Mono.ApiTools.ApiDiff/XMLEvents.cs:52-86 | the counts are warning-balanced; when this group recorded no event type the comparison fails exactly when the access flags do not parse; otherwise at least the event-type warning is counted |
| Events.AccessorsIgnoredWithoutTypes | Mono.ApiTools.ApiDiff/XMLEvents.cs:60-61 | when this group recorded no event type, an event without attributes or access flags adds nothing, even if its accessors differ |
| Events.EventItem | Mono.ApiTools.ApiDiff/XMLEvents.cs:52-86 | the per-item comparison never fails without a second group and always yields warning-balanced counts |
| Events.CompareEvents | Mono.ApiTools.ApiDiff/XMLNameGroup.cs:54-98 | comparing event groups classifies keys as present, missing and extra by set sizes, with warning-balanced inner counts |
| Fields.LoadFieldExtra | Mono.ApiTools.ApiDiff/XMLFields.cs:26-45 | the field type and value are stored under the key when written; the entries of other keys are unchanged |
| Fields.LoadFields | Mono.ApiTools.ApiDiff/XMLFields.cs:26-45 | an element not named `fields` is a FormatException("Expecting <fields>") |
| Fields.Recorded | Mono.ApiTools.ApiDiff/XMLFields.cs:51-68 | one warning about a field attribute exactly when this group recorded that attribute for some field and the two sides' values differ |
| Fields.FieldWarnings | Mono.ApiTools.ApiDiff/XMLFields.cs:51-68 | at most a type warning and a value warning |
| Fields.SameFieldNoWarnings | Mono.ApiTools.ApiDiff/XMLFields.cs:51-68 | a field compared with the same loaded field warns about nothing |
| Fields.FieldTypeWarnsIffDiffers | Mono.ApiTools.ApiDiff/XMLFields.cs:51-59 | a field with a recorded type warns about it exactly when the other side recorded another type or none |
| Fields.FieldInner | Mono.ApiTools.ApiDiff/XMLFields.cs:47-69 | the comparison fails exactly when the access flags do not parse; fields count into the group's own counters, so a TODO marker is an error but not part of the TODO total, and a field without attributes adds exactly its access, type and value warnings, none of them to the warning total |
| Fields.FieldItem | Mono.ApiTools.ApiDiff/XMLFields.cs:47-69 | the per-item comparison never fails without a second group and yields counts of that shape |
| Fields.CompareFields | Mono.ApiTools.ApiDiff/XMLNameGroup.cs:54-98 | comparing field groups classifies keys as present, missing and extra by set sizes |
| Attributes.Parts | Mono.ApiTools.ApiDiff/XMLAttributes.cs:67-75 | one `name=value` part per property; reading the parts fails exactly when some property has no `name` |
| Attributes.MultiKey | Mono.ApiTools.ApiDiff/XMLAttributes.cs:77-89 | the composite key starts with the type name and `;`, and ends with `;` |
| Attributes.NodeKey | Mono.ApiTools.ApiDiff/XMLAttributes.cs:54-95 | an attribute type applied at most once is keyed by its name; one applied more than once gets a composite key |
| Attributes.KeyIgnoresPropertyOrder | Mono.ApiTools.ApiDiff/XMLAttributes.cs:77-79 | the composite key does not depend on the order in which the properties were written |
| Attributes.KeyIsNotTodo | Mono.ApiTools.ApiDiff/XMLAttributes.cs:97-107 | the TODO test that `LoadExtraData` repeats on the key can never succeed, because a composite key ends with `;` |
| Attributes.LoadStep | Mono.ApiTools.ApiDiff/XMLAttributes.cs:28-41 | a TODO marker only sets the TODO flag and the comment; the compiler-generated marker is skipped; any other attribute is keyed and stored, its properties loaded under that key |
| Attributes.LoadAttributes | Mono.ApiTools.ApiDiff/XMLAttributes.cs:21-123 | an element not named `attributes` is a FormatException("Expecting <attributes>") |
| Attributes.LoadedKeysListed | Mono.ApiTools.ApiDiff/XMLAttributes.cs:28-41 | after loading, no key table entry names a TODO marker or the compiler-generated marker, and no key repeats |
| Attributes.LoadedTodo | Mono.ApiTools.ApiDiff/XMLAttributes.cs:30-31 | the group is flagged TODO exactly when some child is a TODO marker |
| Attributes.AttributeInner | Mono.ApiTools.ApiDiff/XMLAttributes.cs:43-52 | a matched attribute is compared only when both sides loaded properties for it, and then adds one warning, counted partially and in total, per differing property |
| Attributes.CompareAttributes | Mono.ApiTools.ApiDiff/XMLNameGroup.cs:54-98 | comparing attribute groups cannot fail, classifies keys as present, missing and extra by set sizes, and the matched attributes add only warnings |
| Attributes.CountTodo | Mono.ApiTools.ApiDiff/XMLParameter.cs:94-98 | a TODO marker on a parameter, class or assembly adds one to the TODO, TODO-total and error counts |
| Attributes.MemberTodo | Mono.ApiTools.ApiDiff/XMLMember.cs:68-71 | a TODO marker on a member adds one to the TODO and error counts only |
| Attributes.CompareMarkedAttributes | Mono.ApiTools.ApiDiff/XMLMember.cs:62-75 | without attributes on either side nothing changes; a TODO marker on the second side writes `error="todo"` on the element |
| Attributes.MarkedAttributesCounts | Mono.ApiTools.ApiDiff/XMLMember.cs:62-75 | the attribute half adds the attribute group's counts, merged partially, plus the TODO bookkeeping when the second side is marked |
| AttributeProperties.IgnoredProperty | Mono.ApiTools.ApiDiff/XMLAttributeProperties.cs:22-37 | the properties never compared are one per listed attribute type, drawn from the nine names of the static table |
| AttributeProperties.LoadProps | Mono.ApiTools.ApiDiff/XMLAttributeProperties.cs:47-69 | the loaded table holds each kept property name once, exactly the names of the children other than the ignored one, and never the ignored name |
| AttributeProperties.LoadPropList | Mono.ApiTools.ApiDiff/XMLAttributeProperties.cs:57-68 | the loop adds exactly the kept names and leaves earlier entries unchanged |
| AttributeProperties.IgnoredNeverKept | Mono.ApiTools.ApiDiff/XMLAttributeProperties.cs:59-60 | the ignored name is never kept |
| AttributeProperties.LoadedValues | Mono.ApiTools.ApiDiff/XMLAttributeProperties.cs:62-67 | each kept property is stored with its `value`, or with no value exactly when it carries a `null` marker |
| AttributeProperties.DuplicateNameThrows | Mono.ApiTools.ApiDiff/XMLAttributeProperties.cs:63-67 | a property name kept twice makes loading fail, as `Hashtable.Add` throws |
| AttributeProperties.KeyStaysThrows | Mono.ApiTools.ApiDiff/XMLAttributeProperties.cs:63-67 | once a name is stored, a later element of that name makes loading fail |
| AttributeProperties.PropWarning | Mono.ApiTools.ApiDiff/XMLAttributeProperties.cs:77-89 | a property of the second side gives at most one warning |
| AttributeProperties.PropWarningIffDiffers | Mono.ApiTools.ApiDiff/XMLAttributeProperties.cs:79-89 | the warning is given exactly when the two sides' values differ, `null` included |
| AttributeProperties.PropWarnings | Mono.ApiTools.ApiDiff/XMLAttributeProperties.cs:76-90 | at most one warning per property of the second side, none when it has none |
| AttributeProperties.PropWarningsCount | Mono.ApiTools.ApiDiff/XMLAttributeProperties.cs:76-90 | the warnings are as many as the second-side properties whose value differs from this side's |
| AttributeProperties.SameTableNoWarnings | Mono.ApiTools.ApiDiff/XMLAttributeProperties.cs:76-90 | a table that agrees with the second side on each of its names gives no warning |
| AttributeProperties.CompareProps | Mono.ApiTools.ApiDiff/XMLAttributeProperties.cs:71-91 | the warnings are appended to the element and only the warning count changes, by the number of differing properties |
| Assemblies.LoadAssembly | Mono.ApiTools.ApiDiff/XMLAssembly.cs:27-49 | a missing `name` or `version`, or no child at all, is a null dereference; the attributes come from a first `attributes` child and are otherwise empty; the namespaces come, one per child and in order, from the next child when it is `namespaces`, and are otherwise none |
| Assemblies.LoadNamespaceList | Mono.ApiTools.ApiDiff/XMLData.cs:35-45 | one loaded namespace per child, in document order |
| Assemblies.NamespaceNode | Mono.ApiTools.ApiDiff/XMLAssembly.cs:94-96 | a namespace is listed as an empty `namespace` element carrying its name |
| Assemblies.NamespaceEntry | Mono.ApiTools.ApiDiff/XMLAssembly.cs:94-105 | one namespace's element is a `namespace` element, and its counts are those of a nested comparison |
| Assemblies.ClearedNs | Mono.ApiTools.ApiDiff/XMLAssembly.cs:103-104 | taking a partner clears exactly the slot the name table points to, when it has one |
| Assemblies.NamespaceDelta | Mono.ApiTools.ApiDiff/XMLAssembly.cs:106-108 | each namespace adds one present item, partially and in total, and its own partial counts to the totals only |
| Assemblies.NamespacesPass | Mono.ApiTools.ApiDiff/XMLAssembly.cs:90-109 | the walk lists one element per first-side namespace and adds, partially, only one present item per namespace |
| Assemblies.ComparedWithNothing | Mono.ApiTools.ApiDiff/XMLAssembly.cs:98-102 | a namespace whose name the second side lacks, or whose partner an earlier namespace of the same name took, is compared with nothing and listed; a repeated name is never an error |
| Assemblies.NamespacesPassSlots | Mono.ApiTools.ApiDiff/XMLAssembly.cs:98-104 | after the walk exactly the slots claimed by some walked namespace are cleared |
| Assemblies.NamespaceLeftoversCount | Mono.ApiTools.ApiDiff/XMLAssembly.cs:111-124 | the leftovers are exactly the second-side namespaces no first-side namespace claimed |
| Assemblies.CompareNamespaces | Mono.ApiTools.ApiDiff/XMLAssembly.cs:82-130 | a `namespaces` element is appended, its children sorted by name; partially only the present count grows, by the number of first-side namespaces |
| Assemblies.NamespaceCount | Mono.ApiTools.ApiDiff/XMLAssembly.cs:82-130 | the listing holds one element per first-side namespace plus one per unclaimed second-side namespace |
| Assemblies.ExtraNamespacesInTotalOnly | Mono.ApiTools.ApiDiff/XMLAssembly.cs:111-124 | each unclaimed second-side namespace adds one to the extra total and nothing to the partial extra count |
| Assemblies.AssemblyWarningCount | Mono.ApiTools.ApiDiff/XMLAssembly.cs:58-62 | one warning for differing names and one for differing versions; none exactly when both agree |
| Assemblies.AssemblyHead | Mono.ApiTools.ApiDiff/XMLAssembly.cs:55-67 | the element is an `assembly` with this side's name and version, counting at least the name and version warnings, with no error and no TODO yet |
| Assemblies.CountersKeepIdentity | Mono.ApiTools.ApiDiff/XMLData.cs:89-136 | writing the counts leaves the element's name and its `name`, `version` and `error` attributes as they were |
| Assemblies.CountersKeepAttribute | Mono.ApiTools.ApiDiff/XMLData.cs:89-136 | writing the counts leaves every attribute that is not a counter's as it was |
| Assemblies.FinishAssembly | Mono.ApiTools.ApiDiff/XMLAssembly.cs:70-79 | a TODO marker on the second side's attributes flags the element with `error="todo"` and adds one to the TODO, TODO-total and error counts; the counts are written without disturbing the name and version |
| Assemblies.CompareAssembly | Mono.ApiTools.ApiDiff/XMLAssembly.cs:51-80 | exactly one `assembly` element, with this side's name and version, is appended to the parent, flagged when the second side is marked TODO |
| Assemblies.AssemblyCounts | Mono.ApiTools.ApiDiff/XMLAssembly.cs:51-80 | the assembly counts one present item per first-side namespace on top of its head, and its own TODO marker as its only TODO and only error |
| Assemblies.CompareAndGetDocument | Mono.ApiTools.ApiDiff/XMLAssembly.cs:145-158 | the document is an `assemblies` root holding the one `assembly` element, and fails exactly when the comparison does |
| Namespaces.LoadNamespace | Mono.ApiTools.ApiDiff/XMLNamespace.cs:25-46 | an element not named `namespace` is a FormatException; a missing `name` a null dereference; a first child not named `classes` a FormatException naming it and the namespace; otherwise the types are that child's children, loaded one by one in order, and none without a child |
| Namespaces.TypeStep | Mono.ApiTools.ApiDiff/XMLNamespace.cs:73-76 | a type is compared with its partner's slot, with an empty type when the second side has no type of its name, and fails as a null dereference when the partner's slot was already taken |
| Namespaces.Cleared | Mono.ApiTools.ApiDiff/XMLNamespace.cs:77-78 | taking a partner clears exactly the slot the name table points to |
| Namespaces.TypesPass | Mono.ApiTools.ApiDiff/XMLNamespace.cs:64-80 | the walk lists one element per first-side type and never counts a missing type at this level |
| Namespaces.TypesPassStep | Mono.ApiTools.ApiDiff/XMLNamespace.cs:64-80 | the walk succeeds exactly when the current type's comparison and the rest of the walk do, and lists that type's element first |
| Namespaces.TypesPassSlots | Mono.ApiTools.ApiDiff/XMLNamespace.cs:73-78 | after the walk exactly the slots claimed by some walked type are cleared |
| Namespaces.UnmatchedComparedWithEmpty | Mono.ApiTools.ApiDiff/XMLNamespace.cs:76 | a type the second side lacks is listed, at its own position, as its comparison with an empty type |
| Namespaces.ClearedSlotFails | Mono.ApiTools.ApiDiff/XMLNamespace.cs:73-78 | a type whose partner's slot is already cleared makes the walk fail |
| Namespaces.DuplicateFails | Mono.ApiTools.ApiDiff/XMLNamespace.cs:73-78 | two first-side types of one name that the second side has make the walk fail |
| Namespaces.CompareNamespace | Mono.ApiTools.ApiDiff/XMLNamespace.cs:48-103 | a `classes` element is appended, its children sorted by name; the counts are those of a nested comparison, with missing items counted equally partially and in total |
| Namespaces.NamespaceUnfold | Mono.ApiTools.ApiDiff/XMLNamespace.cs:48-57 | the namespace comparison fails exactly when its walk over the types does |
| Namespaces.NamespaceListing | Mono.ApiTools.ApiDiff/XMLNamespace.cs:59-103 | the listing holds one element per first-side type plus one per unclaimed second-side type that is not a TODO marker |
| Namespaces.UnmatchedTypeListed | Mono.ApiTools.ApiDiff/XMLNamespace.cs:73-76 | a type the second namespace lacks is listed as its comparison with an empty type, not marked missing |
| Namespaces.AbsentNamespaceListsOwnTypes | Mono.ApiTools.ApiDiff/XMLNamespace.cs:56 | against an absent second namespace the listing is exactly the first side's types |
| Namespaces.DuplicateMatchedTypeFails | Mono.ApiTools.ApiDiff/XMLNamespace.cs:73-78 | two types of one name that the second namespace also has make the comparison fail |
| Classes.GroupRankIsPosition | Mono.ApiTools.ApiDiff/XMLClass.cs:73-119 | exactly the eight member-group names have a position in the loading order, each its own |
| Classes.LoadGroupsFrom | Mono.ApiTools.ApiDiff/XMLClass.cs:73-119 | the chain of optional group children consumes a prefix of the remaining children |
| Classes.ChainStopsAtEnd | Mono.ApiTools.ApiDiff/XMLClass.cs:73-119 | a chain that loads stops exactly where the group positions of the children say it does |
| Classes.ChainConsumesGroups | Mono.ApiTools.ApiDiff/XMLClass.cs:73-119 | every consumed child is a member group of a position not before the current one |
| Classes.ChainIncreases | Mono.ApiTools.ApiDiff/XMLClass.cs:73-119 | the consumed groups come in strictly increasing position, so each group is read at most once |
| Classes.ChainIsMaximal | Mono.ApiTools.ApiDiff/XMLClass.cs:73-119 | the chain stops only at a child that could not follow the last group read |
| Classes.LoadClass | Mono.ApiTools.ApiDiff/XMLClass.cs:40-135 | a missing `name` or `type` is a null dereference; after the groups only the end, `generic-parameters` or `classes` may follow, anything else being a FormatException naming the child, the type and the name; nested types exist exactly when `classes` follows, one per child |
| Classes.LoadClassList | Mono.ApiTools.ApiDiff/XMLData.cs:35-45 | every child is loaded as a type, whatever its name, in document order |
| Classes.LoadedGroupsInOrder | Mono.ApiTools.ApiDiff/XMLClass.cs:68-119 | the groups read are a strictly increasing run of group positions from the first child, ending at the first child that could not follow |
| Classes.GenericParametersEndLoading | Mono.ApiTools.ApiDiff/XMLClass.cs:121-125 | a `generic-parameters` child after the groups ends loading successfully, with no nested types, whatever follows it |
| Classes.ClassWarningCount | Mono.ApiTools.ApiDiff/XMLClass.cs:158-180 | one warning per differing fact among type, base, abstract-and-sealed, serializable, charset and layout |
| Classes.StaticWarningWins | Mono.ApiTools.ApiDiff/XMLClass.cs:164-166 | when either side is static and the modifiers differ, the one warning is about being static, worded from the first side |
| Classes.AbstractBeforeSealed | Mono.ApiTools.ApiDiff/XMLClass.cs:167-170 | otherwise an abstract mismatch is reported, and a sealed mismatch only when abstract agrees |
| Classes.CreateHash | Mono.ApiTools.ApiDiff/XMLClass.cs:297-308 | each name maps to the last index it occurs at, so of several types of one name the last is the one matched |
| Classes.Slots | Mono.ApiTools.ApiDiff/XMLClass.cs:247-250 | before the walk every second-side type is still available |
| Classes.ClassNode | Mono.ApiTools.ApiDiff/XMLClass.cs:256-259 | a type is listed as a `class` element carrying its name |
| Classes.ExtraClassNodes | Mono.ApiTools.ApiDiff/XMLClass.cs:274-289 | each unclaimed second-side type is listed and marked `presence="extra"` |
| Classes.LeftoversCount | Mono.ApiTools.ApiDiff/XMLClass.cs:274-289 | the leftovers are exactly the unclaimed second-side types that are not TODO markers |
| Classes.NestedDeltaAdds | Mono.ApiTools.ApiDiff/XMLClass.cs:263-265 | merging a compared nested type partial-to-partial keeps the walk's counts mirrored, error-free and with no negative warnings |
| Classes.GroupStep | Mono.ApiTools.ApiDiff/XMLClass.cs:182-236 | a member group is compared only when either side has it; its counts are merged partially, warnings only grow and no error is added |
| Classes.CompareClassGroups | Mono.ApiTools.ApiDiff/XMLClass.cs:182-236 | the seven groups after the attributes add no error, only grow the warnings and keep the counts mirrored |
| Classes.AttributePartCounts | Mono.ApiTools.ApiDiff/XMLClass.cs:142-156 | the attribute part counts one error exactly when the second side is marked TODO |
| Classes.ClassHeadCounts | Mono.ApiTools.ApiDiff/XMLClass.cs:142-180 | the attributes and the scalar facts count at least the scalar warnings and an error only for a TODO marker |
| Classes.CompareClass | Mono.ApiTools.ApiDiff/XMLClass.cs:137-245 | a type's only possible error is the TODO marker on the second side's attributes, since merges from the groups and nested types never carry errors; it counts at least its scalar warnings |
| Classes.CompareNestedClasses | Mono.ApiTools.ApiDiff/XMLClass.cs:238-242 | a `classes` element is appended, its children sorted by name, and the counts keep their nested shape |
| Classes.FinishNested | Mono.ApiTools.ApiDiff/XMLClass.cs:274-294 | the leftovers are counted as extra, partially and in total; the listing is a permutation of the walked elements and the extra elements, sorted by name |
| Classes.ClassifiedNested | Mono.ApiTools.ApiDiff/XMLClass.cs:266-288 | missing and extra types counted partially and in total keep the counts mirrored |
| Classes.SortedGroup | Mono.ApiTools.ApiDiff/XMLClass.cs:291-294 | the container holds a permutation of the elements, in name order when the comparison is a string comparison |
| Classes.NestedClassesCounts | Mono.ApiTools.ApiDiff/XMLClass.cs:247-295 | nested types are counted missing, partially and in total, when the second side lacks their name, and extra when unclaimed and not TODO markers; the listing has one element per first-side type and per extra type |
| Classes.NestedPass | Mono.ApiTools.ApiDiff/XMLClass.cs:252-272 | the walk lists one element per first-side nested type and keeps its counts in the nested shape |
| Classes.NestedPassSlots | Mono.ApiTools.ApiDiff/XMLClass.cs:261-264 | after the walk exactly the claimed slots are cleared |
| Classes.NestedPassMissing | Mono.ApiTools.ApiDiff/XMLClass.cs:266-271 | the walk counts as missing exactly the nested types whose name the second side lacks |
| Classes.NestedPassStep | Mono.ApiTools.ApiDiff/XMLClass.cs:252-272 | one step adds a missing type exactly when the current name is unknown to the second side |
| AssemblyOutput.ForwardedType | Mono.ApiTools.ApiInfo/Data/AssemblyData.cs:46-54 | a forwarded type resolves to its definition, or fails with "Could not resolve forwarded type …" naming the type and the assembly |
| AssemblyOutput.DescribedTypesSpec | Mono.ApiTools.ApiInfo/Data/AssemblyData.cs:38-55 | without forwarders the types are the module's; with them the resolved forwarded types follow in order, and loading fails exactly when one does not resolve, naming the first such |
| AssemblyOutput.WrittenTypesSpec | Mono.ApiTools.ApiInfo/Data/AssemblyData.cs:63-79 | exactly the described types are written: with a namespace, not nested, and public unless in ABI mode; they come ordered by namespace and then name |
| AssemblyOutput.SortedNamespacesOrdered | Mono.ApiTools.ApiInfo/Data/TypeReferenceComparer.cs:18-25 | types sorted by the comparer have their namespaces in ordinal order |
| AssemblyOutput.GroupByNamespaceSpec | Mono.ApiTools.ApiInfo/Data/AssemblyData.cs:67-106 | the corrected grouping keeps every class in order under its own namespace, writes no empty namespace element, opens a new one only when the namespace changes, and on sorted input writes namespaces in increasing order |
| AssemblyOutput.OrderedGivesDistinctNamespaces | Mono.ApiTools.ApiInfo/Data/AssemblyData.cs:63-95 | on classes sorted by namespace no namespace element is written twice |
| AssemblyOutput.FlattenNames | Mono.ApiTools.ApiInfo/Data/AssemblyData.cs:80-95 | a namespace has an element exactly when some class carries it |
| AssemblyOutput.SentinelNamespaceLosesElement | Mono.ApiTools.ApiInfo/Data/AssemblyData.cs:67-95 | as written, a class in the namespace "$%&$&" is written straight into `namespaces` with no namespace element around it |
| AssemblyOutput.NamespacesAsWrittenAgree | Mono.ApiTools.ApiInfo/Data/AssemblyData.cs:67-106 | with no class in the namespace "$%&$&", the loop as written and the corrected grouping write the same elements |
| AssemblyOutput.AttributesChildOf | Mono.ApiTools.ApiInfo/Data/AssemblyData.cs:36 | an `attributes` child is written exactly when the assembly has custom attributes |
| AssemblyOutput.WrittenClasses | Mono.ApiTools.ApiInfo/Data/AssemblyData.cs:97-98 | one class element per written type, in order; writing fails exactly when some type's element does |
| AssemblyOutput.NamespacesChild | Mono.ApiTools.ApiInfo/Data/AssemblyData.cs:57-108 | a `namespaces` element is written exactly when there are types to describe, and holds the namespace elements |
| AssemblyOutput.AssemblyNodeShape | Mono.ApiTools.ApiInfo/Data/AssemblyData.cs:26-111 | the `assembly` element carries exactly the name and version, then the attributes when there are any, then the namespaces when there are types |
| AssemblyOutput.NamespaceBlocksSpec | Mono.ApiTools.ApiInfo/Data/AssemblyData.cs:63-106 | every written type's class element appears once, in order, under its namespace; no namespace element is empty or written twice |
| AssemblyOutput.NamespaceBlocksCover | Mono.ApiTools.ApiInfo/Data/AssemblyData.cs:67-106 | a namespace element is written exactly when some described type is in that namespace |
| AssemblyOutput.NamespacesChildAsWritten | Mono.ApiTools.ApiInfo/Data/AssemblyData.cs:57-108 | when no described type is in the namespace "$%&$&", the `namespaces` element holds exactly what the loop as written produces |
| TypeRules.MethodAccess | Mono.ApiTools.ApiInfo/Data/TypeData.cs:194-201 | the member-access field of a method's flags is one of the eight values below 8 |
| TypeRules.MustDocumentMethod | Mono.ApiTools.ApiInfo/Data/TypeData.cs:194-201 | a method is described exactly when its access is family, family-or-assembly or public |
| TypeRules.FieldAccess | Mono.ApiTools.ApiInfo/Data/TypeData.cs:266-279 | the access field of a field's flags is one of the eight values below 8 |
| TypeRules.ClassType | Mono.ApiTools.ApiInfo/Data/TypeData.cs:203-221 | the kind written is the first of enum, struct, interface, delegate, pointer that applies, else class; each named kind is chosen exactly when its test holds and no earlier one does |
| TypeRules.CharSet | Mono.ApiTools.ApiInfo/Data/TypeData.cs:223-236 | the character set is one of Ansi, Auto, Unicode, None, and None exactly for the custom string format |
| TypeRules.CharSetRoundTrip | Mono.ApiTools.ApiInfo/Data/TypeData.cs:223-236 | every written character-set name other than None maps back to the type's string-format flags |
| TypeRules.Layout | Mono.ApiTools.ApiInfo/Data/TypeData.cs:238-251 | the layout is Auto, Sequential or Explicit, and absent exactly for the reserved fourth layout value |
| TypeRules.LayoutRoundTrip | Mono.ApiTools.ApiInfo/Data/TypeData.cs:238-251 | a written layout name maps back to the type's layout flags |
| TypeRules.EnumValueField | Mono.ApiTools.ApiInfo/Data/TypeData.cs:177-184 | the result is the first special-name field called value__, and absent exactly when there is none |
| TypeRules.ClassAttributes | Mono.ApiTools.ApiInfo/Data/TypeData.cs:35-76 | the class header fails with NotSupportedException exactly for an enum without a value field; otherwise it holds name, type, charset, and enumtype exactly for enums |
| TypeRules.ClassAttributeKeys | Mono.ApiTools.ApiInfo/Data/TypeData.cs:35-67 | base, sealed, abstract, serializable, layout, pack and size are each written exactly when their condition holds, and no other key is written |
| TypeRules.ClassAttributeSizes | Mono.ApiTools.ApiInfo/Data/TypeData.cs:59-67 | the written pack and size values parse back to the type's packing and class sizes |
| TypeRules.GetFields | Mono.ApiTools.ApiInfo/Data/TypeData.cs:253-284 | the described fields are fields of the type without special names, and in ABI mode none is static |
| TypeRules.FieldSelection | Mono.ApiTools.ApiInfo/Data/TypeData.cs:253-284 | a field is described iff it has no special name and either (ABI mode) is instance and serialized or visible, or (otherwise) is visible outside the assembly |
| TypeRules.GetConstructors | Mono.ApiTools.ApiInfo/Data/TypeData.cs:408-423 | a method is listed as a constructor iff it is a constructor of the type visible outside the assembly |
| TypeRules.GetEvents | Mono.ApiTools.ApiInfo/Data/TypeData.cs:425-441 | an event is listed iff it has an add accessor visible outside the assembly |
| TypeRules.WalkLength | Mono.ApiTools.ApiInfo/Data/TypeData.cs:287-329 | the base-type walk visits only the type itself without the full API, and otherwise stops exactly after the first interface, enum, or type whose base is absent or System.Object |
| TypeRules.AddProperties | Mono.ApiTools.ApiInfo/Data/TypeData.cs:296-315 | one pass keeps what is listed, appends only documented properties of the visited type, and on inherited passes appends no name twice |
| TypeRules.OwnPropertiesAdded | Mono.ApiTools.ApiInfo/Data/TypeData.cs:296-315 | the type's own pass appends exactly its documented properties, with no name test |
| TypeRules.OwnProperties | Mono.ApiTools.ApiInfo/Data/TypeData.cs:296-315 | every property of the own pass is documented |
| TypeRules.CollectProperties | Mono.ApiTools.ApiInfo/Data/TypeData.cs:287-329 | the walk's list starts with the own properties, every later entry has a name not listed before it, and every entry is documented |
| TypeRules.GetProperties | Mono.ApiTools.ApiInfo/Data/TypeData.cs:287-329 | every listed property has a getter or setter that is described |
| TypeRules.PropertySelection | Mono.ApiTools.ApiInfo/Data/TypeData.cs:287-329 | the listed properties are the own documented ones followed by inherited ones whose names were not yet listed, and without the full API only the own ones |
| TypeRules.FinalizerName | Mono.ApiTools.ApiInfo/Data/TypeData.cs:348-356 | a finalizer is renamed to '~' plus the declaring type's name cut before its first backquote |
| TypeRules.AsListed | Mono.ApiTools.ApiInfo/Data/TypeData.cs:346-357 | only the name changes, and only for a finalizer on the type's own pass |
| TypeRules.AddMethods | Mono.ApiTools.ApiInfo/Data/TypeData.cs:340-375 | one pass keeps what is listed, and on inherited passes appends no method hidden by an earlier one (declared by another type, same name, parameter count and short parameter type names) |
| TypeRules.OwnMethods | Mono.ApiTools.ApiInfo/Data/TypeData.cs:340-357 | the own pass lists the type's listable methods in order, finalizers renamed |
| TypeRules.OwnMethodsAdded | Mono.ApiTools.ApiInfo/Data/TypeData.cs:340-375 | the own pass appends exactly the own methods, with no hiding test |
| TypeRules.CollectMethods | Mono.ApiTools.ApiInfo/Data/TypeData.cs:331-379 | the walk's list starts with the own methods and no later entry is hidden by an earlier one |
| TypeRules.MethodSelection | Mono.ApiTools.ApiInfo/Data/TypeData.cs:331-379 | the listed methods are the own ones followed by inherited ones not hidden by an earlier entry, and without the full API only the own ones |
| TypeRules.CollectedMethodsListable | Mono.ApiTools.ApiInfo/Data/TypeData.cs:343-345 | no entry of the walk's method list is a constructor |
| TypeRules.AddedMethodOrigin | Mono.ApiTools.ApiInfo/Data/TypeData.cs:340-375 | every appended entry is a listable method of the visited type as listed, hence no constructor |
| TypeRules.MethodsExcludeConstructors | Mono.ApiTools.ApiInfo/Data/TypeData.cs:108-125 | the method list holds no constructor, so no listed constructor appears among the methods |
| TypeRules.NestedTypes | Mono.ApiTools.ApiInfo/Data/TypeData.cs:143-172 | the nested types written are a permutation of those that are nested public, family or family-or-assembly and declared by the type |
| TypeRules.NestedTypesSorted | Mono.ApiTools.ApiInfo/Data/TypeData.cs:160-172 | the nested types are written in TypeReferenceComparer order |
| AttributeOutput.AttributeOrder | Mono.ApiTools.ApiInfo/Data/AttributeData.cs:57-59 | attributes compare equal exactly when their types have the same full name (ordinal order) |
| AttributeOutput.AttributeOrderIsPreorder | Mono.ApiTools.ApiInfo/Data/AttributeData.cs:57-59 | the ordinal full-name order is a total preorder, so the sort is well defined |
| AttributeOutput.WrittenAttributesSpec | Mono.ApiTools.ApiInfo/Data/AttributeData.cs:57-61 | exactly the attributes not skipped are written, each as often as it occurs, ordered by type full name |
| AttributeOutput.PropertyValueText | Mono.ApiTools.ApiInfo/Data/AttributeData.cs:84-94 | a null value is written as "null", other values as their text, upper-cased for a GuidAttribute |
| AttributeOutput.ShownProperties | Mono.ApiTools.ApiInfo/Data/AttributeData.cs:72 | the written properties are exactly the mapped ones except TypeId |
| AttributeOutput.AttributeNode | Mono.ApiTools.ApiInfo/Data/AttributeData.cs:63-101 | an attribute element carries the cleaned type name and has a properties child, with one property per shown entry, exactly when the mapping exists and shows something |
| AttributeOutput.AttributePropertiesSpec | Mono.ApiTools.ApiInfo/Data/AttributeData.cs:76-97 | each property element carries the entry's name and rendered value, and a null value cannot be told from the string "null" |
| AttributeOutput.RenderedMapping | Mono.ApiTools.ApiInfo/Data/AttributeData.cs:76-94 | the rendered table has one entry per mapping entry, same key, with the value's text |
| AttributeOutput.ReadAttribute | Mono.ApiTools.ApiInfo/Data/AttributeData.cs:108-124 | reading an attribute fails exactly when building its mapping throws; an unresolved attribute has no mapping |
| AttributeOutput.ForwarderNodes | Mono.ApiTools.ApiInfo/Data/TypeForwardedToData.cs:27-45 | one element per exported type with the forwarder bit 0x200000, in table order |
| AttributeOutput.ForwarderNodesSpec | Mono.ApiTools.ApiInfo/Data/TypeForwardedToData.cs:32-43 | each forwarder element is a TypeForwardedToAttribute with a single Destination property holding the cleaned name of a forwarded type |
| AttributeOutput.ProviderNodes | Mono.ApiTools.ApiInfo/Data/AttributeData.cs:44-102 | a provider contributes its forwarders when it is an assembly and forwarders are not followed, then one element per attribute not skipped |
| AttributeOutput.ProvidersNodes | Mono.ApiTools.ApiInfo/Data/AttributeData.cs:44-50 | providers that are null or have no custom attributes contribute nothing |
| AttributeOutput.AttributesElement | Mono.ApiTools.ApiInfo/Data/AttributeData.cs:36-42 | the attributes element is written exactly when some provider is present and has custom attributes |
| AttributeOutput.ProvidersNodesAreAttributes | Mono.ApiTools.ApiInfo/Data/AttributeData.cs:42-105 | every child of the attributes element is an attribute element |
| AttributeOutput.ProviderNodesAreAttributes | Mono.ApiTools.ApiInfo/Data/AttributeData.cs:53-102 | every element a provider contributes is an attribute element |
| AttributeOutput.AllSkippedGivesEmptyElement | Mono.ApiTools.ApiInfo/Data/AttributeData.cs:36-105 | when every attribute is skipped and no forwarders are written, the attributes element is still written, empty |
| FlagArithmetic.SubtractIsClear | Mono.ApiTools.ApiInfo/Data/AttributeData.cs:344-350 | subtracting a flag the value contains clears exactly that flag's bits |
| AttributeValues.ValueText | Mono.ApiTools.ApiInfo/Data/AttributeData.cs:84-90 | a null value has no text and a string is its own text |
| AttributeValues.ValueTextRoundTrip | Mono.ApiTools.ApiInfo/Data/AttributeData.cs:90 | the text of a 32-bit integer or boolean value parses back to that value |
| AttributeValues.FirstWithConstant | Mono.ApiTools.ApiInfo/Data/AttributeData.cs:386-398 | the index found is the first field whose constant equals the value, or -1 when none does |
| AttributeValues.GetEnumValue | Mono.ApiTools.ApiInfo/Data/AttributeData.cs:386-398 | the value is named after the first field with that constant, and returned unchanged when no field has it |
| AttributeValues.Bits | Mono.ApiTools.ApiInfo/Data/AttributeData.cs:329 | the bits of a value's 64-bit representation lie below 64 |
| AttributeValues.FlagsOf | Mono.ApiTools.ApiInfo/Data/AttributeData.cs:332-342 | one flag per field in declaration order, a field without a constant giving none |
| AttributeValues.FlagScan | Mono.ApiTools.ApiInfo/Data/AttributeData.cs:332-352 | the backward scan names fields in descending index order, each with a non-empty flag inside the value and disjoint from what remains |
| AttributeValues.FieldNames | Mono.ApiTools.ApiInfo/Data/AttributeData.cs:344-349 | the names written are those of the taken fields, in scan order |
| AttributeValues.GetFlaggedEnumValue | Mono.ApiTools.ApiInfo/Data/AttributeData.cs:324-384 | a flags value is written as a string, empty when no bit is set |
| AttributeValues.ScanDisjoint | Mono.ApiTools.ApiInfo/Data/AttributeData.cs:344-351 | the named flags are pairwise disjoint |
| AttributeValues.ScanCovers | Mono.ApiTools.ApiInfo/Data/AttributeData.cs:332-352 | the value is the union of the named flags and the bits no field accounts for |
| AttributeValues.ScanMaximal | Mono.ApiTools.ApiInfo/Data/AttributeData.cs:344-351 | a passed-over non-zero flag is not contained in the bits that remain |
| AttributeValues.ArgumentValue | Mono.ApiTools.ApiInfo/Data/AttributeData.cs:292-307 | a non-enum argument is passed through, a flagged enum integer is named by its flags, another enum by GetEnumValue |
| AttributeValues.LoadedArgument | Mono.ApiTools.ApiInfo/Data/AttributeData.cs:155-167 | ldarg.1-3 and ldarg with a parameter load argument 1-3 or the parameter's index plus one, and no other instruction loads one |
| AttributeValues.ScanStores | Mono.ApiTools.ApiInfo/Data/AttributeData.cs:145-189 | the field table, when it exists, is non-empty and repeats no field |
| AttributeValues.ArgumentFieldMapping | Mono.ApiTools.ApiInfo/Data/AttributeData.cs:145-189 | the field-to-argument table, when it exists, is non-empty and repeats no field |
| AttributeValues.PendingCharacterized | Mono.ApiTools.ApiInfo/Data/AttributeData.cs:149-184 | the pending argument is the last one loaded that no store into an own-type field has consumed since |
| AttributeValues.MappingExists | Mono.ApiTools.ApiInfo/Data/AttributeData.cs:169-188 | the table exists exactly when some pending argument is stored into a field of the constructor's own type |
| AttributeValues.MappingKeys | Mono.ApiTools.ApiInfo/Data/AttributeData.cs:169-184 | a field has an entry exactly when some pending argument is stored into it |
| AttributeValues.MappingValues | Mono.ApiTools.ApiInfo/Data/AttributeData.cs:177-183 | a field's entry is the argument, less one, of its first effective store; later stores are ignored |
| AttributeValues.MappingStep | Mono.ApiTools.ApiInfo/Data/AttributeData.cs:169-184 | one instruction changes a field's entry only by adding it at its first effective store |
| AttributeValues.FirstOwnLoad | Mono.ApiTools.ApiInfo/Data/AttributeData.cs:202-215 | the index found is the first load of an own-type field, or -1 |
| AttributeValues.GetterField | Mono.ApiTools.ApiInfo/Data/AttributeData.cs:195-215 | a property maps to a field exactly when its getter has a body that loads a field of the type |
| AttributeValues.PropertyFieldMapping | Mono.ApiTools.ApiInfo/Data/AttributeData.cs:191-219 | each entry pairs a property's name with the first own-type field its getter loads |
| AttributeValues.PropertyValues | Mono.ApiTools.ApiInfo/Data/AttributeData.cs:272-288 | adding property values fails only with an out-of-range argument index or a repeated key |
| AttributeValues.PropertyValuesOk | Mono.ApiTools.ApiInfo/Data/AttributeData.cs:272-288 | on success, earlier entries are kept and every property whose field got an argument holds that argument's value |
| AttributeValues.PropertyValuesOutOfRange | Mono.ApiTools.ApiInfo/Data/AttributeData.cs:276-280 | an argument index past the constructor arguments makes the mapping fail |
| AttributeValues.BindableValue | Mono.ApiTools.ApiInfo/Data/AttributeData.cs:246-262 | a Boolean parameter passes the argument through, BindableSupport 0 and 1 give false and true, anything else throws |
| AttributeValues.ConstructorMapping | Mono.ApiTools.ApiInfo/Data/AttributeData.cs:221-290 | no body changes nothing; DecimalConstantAttribute adds Value; a one-argument BindableAttribute adds Bindable; each fails exactly on a repeated key or a bad Bindable value |
| AttributeValues.NamedMapping | Mono.ApiTools.ApiInfo/Data/AttributeData.cs:126-143 | adding the named arguments fails only with an ArgumentException |
| AttributeValues.NamedEntries | Mono.ApiTools.ApiInfo/Data/AttributeData.cs:131-142 | one entry per named argument, in order, holding its name and its rendered value |
| AttributeValues.NamedMappingAppends | Mono.ApiTools.ApiInfo/Data/AttributeData.cs:126-143 | the named arguments are appended in order, and this fails exactly when a key repeats |
| AttributeValues.DistinctKeysExcludeRepeat | Mono.ApiTools.ApiInfo/Data/AttributeData.cs:141 | a key already present makes the appended table repeat a key |
| AttributeValues.CreateAttributeMapping | Mono.ApiTools.ApiInfo/Data/AttributeData.cs:108-124 | an attribute that does not resolve has no mapping |
| AttributeValues.NamedArgumentsKept | Mono.ApiTools.ApiInfo/Data/AttributeData.cs:108-143 | in a successful mapping every named argument is held under its name with its rendered value |
| AttributeValues.ConstructorMappingKeeps | Mono.ApiTools.ApiInfo/Data/AttributeData.cs:221-290 | a successful constructor mapping keeps every entry it was given |
| AttributeValues.DistinctGet | Mono.ApiTools.ApiInfo/Data/AttributeData.cs:141 | in a table with distinct keys, looking up an entry's key finds its value |
| MemberOutput.AttributesChild | Mono.ApiTools.ApiInfo/Data/MemberData.cs:42 | a member gets at most one attributes child, present exactly when one of its attribute providers has attributes |
| MemberOutput.GenericParameterNode | Mono.ApiTools.ApiInfo/Data/MemberData.cs:94-98 | a generic-parameter element carries the parameter's name and its flags as a signed decimal |
| MemberOutput.GenericParametersNodes | Mono.ApiTools.ApiInfo/Data/MemberData.cs:85-124 | no element for no generic parameters, else one generic-parameters element with one child per parameter, in order |
| MemberOutput.GenericParameterConstraints | Mono.ApiTools.ApiInfo/Data/MemberData.cs:100-120 | a constraints element follows the attributes exactly when there is a constraint, listing every constraint's cleaned name in order |
| MemberOutput.Direction | Mono.ApiTools.ApiInfo/Data/ParameterData.cs:40-49 | a by-reference parameter is out or ref, and this is written exactly for the first parameter of an extension method that is not by reference |
| MemberOutput.ParamAttributesRequired | Mono.ApiTools.ApiInfo/Data/ParameterData.cs:35-51 | a parameter element carries its name, position, flags and cleaned type |
| MemberOutput.ParamAttributesOptional | Mono.ApiTools.ApiInfo/Data/ParameterData.cs:53-61 | optional is written exactly for optional parameters, the default value only with it, and direction only when it is not "in" |
| MemberOutput.ParameterNode | Mono.ApiTools.ApiInfo/Data/ParameterData.cs:33-65 | each parameter is written as a parameter element |
| MemberOutput.ParametersNode | Mono.ApiTools.ApiInfo/Data/ParameterData.cs:29-67 | the parameters element has one child per parameter, in order, its position being its index |
| MemberOutput.ParameterNodeFacts | Mono.ApiTools.ApiInfo/Data/ParameterData.cs:35-61 | the written parameter's attributes read as its name, type, flags, direction, default value and optional flag, and never as unsafe |
| MemberOutput.ParameterLoads | Mono.ApiTools.ApiInfo/Data/ParameterData.cs:29-67 | a written parameter without custom attributes is always read back by the diff |
| MemberOutput.ParameterReadBack | Mono.ApiTools.ApiInfo/Data/ParameterData.cs:35-61 | the diff reads back the parameter's name, cleaned element type, flags, direction, and default value exactly for an optional parameter with a constant |
| MemberOutput.ParameterFlagsReadBack | Mono.ApiTools.ApiInfo/Data/ParameterData.cs:53-55 | the diff reads a written parameter as optional exactly when it is, and never as unsafe |
| MemberOutput.MethodName | Mono.ApiTools.ApiInfo/Data/MethodData.cs:26-33 | a method's name is its name followed by its parameter signature in parentheses |
| MemberOutput.MethodAttributesHead | Mono.ApiTools.ApiInfo/Data/MethodData.cs:35-39 | a method element carries its name, its flags text and its return type when those are written |
| MemberOutput.MethodAttributesFlags | Mono.ApiTools.ApiInfo/Data/MethodData.cs:56-73 | abstract, virtual, sealed, static and is-override are written, as "true", exactly when their condition holds, and final never |
| MemberOutput.MethodNode | Mono.ApiTools.ApiInfo/Data/MethodData.cs:82-99 | a method element holds its attributes child, then its parameters element, then its generic parameters |
| MemberOutput.MethodsNode | Mono.ApiTools.ApiInfo/Data/MemberData.cs:30-49 | the group element has one child per member, in order, under the group's tags |
| MemberOutput.MethodNodeAttributes | Mono.ApiTools.ApiInfo/Data/MethodData.cs:35-76 | the attrib flags are written unless member attributes are off, and the return type is left out exactly for a constructor returning System.Void |
| MemberOutput.MethodFlagsReadBack | Mono.ApiTools.ApiInfo/Data/MethodData.cs:56-63 | the diff reads back abstract, virtual and static, and never final, since the flag is written as sealed |
| MemberOutput.MethodFlagAttributes | Mono.ApiTools.ApiInfo/Data/MethodData.cs:56-63 | the abstract, virtual and static attributes read as "true" exactly when the flags hold, and final reads empty |
| MemberOutput.SealedIffFinalVirtualReuse | Mono.ApiTools.ApiInfo/Data/MethodData.cs:60-61 | sealed is written exactly for a final virtual method that reuses its slot |
| MemberOutput.AccessorMethods | Mono.ApiTools.ApiInfo/Data/PropertyData.cs:30-58 | the accessors are the documented getter then the documented setter, none when neither is documented; the property has parameters when it has a documented getter or a documented setter with more than one parameter |
| MemberOutput.PropertyParams | Mono.ApiTools.ApiInfo/Data/PropertyData.cs:70-75 | the params attribute is written only when the signature is not empty |
| MemberOutput.PropertyNode | Mono.ApiTools.ApiInfo/Data/PropertyData.cs:79-92 | a property element holds its attributes child and, when it has documented accessors, a methods group |
| MemberOutput.PropertiesNode | Mono.ApiTools.ApiInfo/Data/PropertyData.cs:100-108 | the properties element has one property child per property, in order |
| MemberOutput.PropertyKeyReadBack | Mono.ApiTools.ApiInfo/Data/PropertyData.cs:24-75 | the diff's key of a written property is its name, cleaned type and parameter signature joined by ':' |
| MemberOutput.PropertyAttributesRead | Mono.ApiTools.ApiInfo/Data/PropertyData.cs:60-76 | a property element carries its name and cleaned type, and params exactly when there is a signature |
| MemberOutput.PropertyAccessors | Mono.ApiTools.ApiInfo/Data/PropertyData.cs:79-92 | the accessors are written as a methods group of method elements with their flags |
| MemberOutput.FieldNode | Mono.ApiTools.ApiInfo/Data/FieldData.cs:24-60 | a field element carries its name, cleaned type and flags, and value exactly for a literal with a constant text |
| MemberOutput.FieldsNode | Mono.ApiTools.ApiInfo/Data/FieldData.cs:62-70 | the fields element has one field child per field, in order |
| MemberOutput.EventNode | Mono.ApiTools.ApiInfo/Data/EventData.cs:24-42 | an event element carries exactly its name, flags and cleaned event type |
| MemberOutput.EventsNode | Mono.ApiTools.ApiInfo/Data/EventData.cs:44-52 | the events element has one event child per event, in order |
| MemberOutput.FlagsTextRoundTrip | Mono.ApiTools.ApiInfo/Data/MethodData.cs:35-39 | the flags text parses back as the signed 32-bit flags word |
| ClassOutput.InterfaceOrderIsPreorder | Mono.ApiTools.ApiInfo/Data/TypeData.cs:80-82 | the ordinal full-name order of interfaces is a total preorder |
| ClassOutput.InterfacesNodes | Mono.ApiTools.ApiInfo/Data/TypeData.cs:80-94 | an interfaces element is written exactly when the type has public interfaces |
| ClassOutput.InterfacesListed | Mono.ApiTools.ApiInfo/Data/TypeData.cs:80-94 | every public interface is listed once per occurrence, by cleaned name, in ordinal order of full name |
| ClassOutput.GroupIf | Mono.ApiTools.ApiInfo/Data/TypeData.cs:101-135 | a member group is written only when it has members |
| ClassOutput.MemberGroups | Mono.ApiTools.ApiInfo/Data/TypeData.cs:98-141 | in ABI mode only the fields group is written |
| ClassOutput.MemberGroupNames | Mono.ApiTools.ApiInfo/Data/TypeData.cs:98-141 | only fields, constructors, properties, events and methods groups are written among the members |
| ClassOutput.FieldsGroupSpec | Mono.ApiTools.ApiInfo/Data/TypeData.cs:100-106 | the fields group holds exactly the described fields, sorted by MemberReferenceComparer |
| ClassOutput.PropertiesGroupSorted | Mono.ApiTools.ApiInfo/Data/TypeData.cs:118-123 | the properties group holds exactly the described properties (as a multiset), sorted by PropertyDefinitionComparer |
| ClassOutput.EventsGroupSorted | Mono.ApiTools.ApiInfo/Data/TypeData.cs:125-130 | the events group holds exactly the type's described events (as a multiset), sorted by name with MemberReferenceComparer |
| ClassOutput.MethodGroupsSorted | Mono.ApiTools.ApiInfo/Data/TypeData.cs:111-137 | constructors and methods are written in MethodDefinitionComparer order |
| ClassOutput.ClassNode | Mono.ApiTools.ApiInfo/Data/TypeData.cs:30-175 | a written type is a class element whose attributes are the class header, and an enum without a value field aborts it |
| ClassOutput.AbiModeOnlyFields | Mono.ApiTools.ApiInfo/Data/TypeData.cs:108-138 | in ABI mode no constructors, properties, events or methods group is written |
| ClassOutput.GenericParametersPrecedeMembers | Mono.ApiTools.ApiInfo/Data/TypeData.cs:78-141 | the generic parameters follow the attributes and interfaces and come before every member group |
| ClassOutput.NestedClassesWritten | Mono.ApiTools.ApiInfo/Data/TypeData.cs:143-172 | the nested types kept are written, in order, in one classes element after the members, each as its own class element |
| ClassOutput.NestedFailureAborts | Mono.ApiTools.ApiInfo/Data/TypeData.cs:166-170 | a nested type that cannot be written aborts the type that contains it |
| Signatures.Modifier | Mono.ApiTools.ApiInfo/Data/Parameters.cs:31-38 | only a by-reference parameter gets a modifier, in taking precedence over out |
| Signatures.ParamText | Mono.ApiTools.ApiInfo/Data/Parameters.cs:31-46 | an entry is the cleaned parameter type, preceded by "in " or "out " for a by-reference parameter with that flag |
| Signatures.ParamTexts | Mono.ApiTools.ApiInfo/Data/Parameters.cs:23-47 | one entry per parameter, in order |
| Signatures.GetSignature | Mono.ApiTools.ApiInfo/Data/Parameters.cs:17-50 | an empty list gives the empty string and a single parameter just its entry |
| Signatures.BuildSignature | Mono.ApiTools.ApiInfo/Data/Parameters.cs:17-50 | the StringBuilder loop computes the same signature as the entries joined by ", " |
| Signatures.SignatureStep | Mono.ApiTools.ApiInfo/Data/Parameters.cs:23-47 | each loop step appends ", " and the next entry, or only the entry on the first step |
| Signatures.SignatureAppend | Mono.ApiTools.ApiInfo/Data/Parameters.cs:23-47 | appending a parameter appends ", " and its entry, or only its entry to an empty list |
| Signatures.SignatureClean | Mono.ApiTools.ApiInfo/Data/Parameters.cs:46 | a signature contains no angle bracket or '/' |
| Signatures.ParamTextClean | Mono.ApiTools.ApiInfo/Data/Parameters.cs:40-46 | an entry contains no angle bracket or '/' |
| DefinitionComparers.NameOrder | Mono.ApiTools.ApiInfo/Data/MemberReferenceComparer.cs:20-25 | names compare equal exactly when they are equal, and swapping them negates the result |
| DefinitionComparers.NameOrderTransitive | Mono.ApiTools.ApiInfo/Data/MemberReferenceComparer.cs:20-25 | the ordinal name order is transitive |
| DefinitionComparers.MemberOrdersArePreorders | Mono.ApiTools.ApiInfo/Data/MemberReferenceComparer.cs:20-25 | ordering fields or events by name is a total preorder under which only same-named members tie |
| DefinitionComparers.TypeOrder | Mono.ApiTools.ApiInfo/Data/TypeReferenceComparer.cs:18-25 | two types tie exactly when namespace and name are equal |
| DefinitionComparers.TypeOrderAntisymmetric | Mono.ApiTools.ApiInfo/Data/TypeReferenceComparer.cs:18-25 | swapping the types negates the result |
| DefinitionComparers.TypeOrderReadsNamesOnly | Mono.ApiTools.ApiInfo/Data/TypeReferenceComparer.cs:18-25 | only namespace and name are consulted |
| DefinitionComparers.TypeOrderIsPreorder | Mono.ApiTools.ApiInfo/Data/TypeReferenceComparer.cs:18-25 | types are totally preordered by namespace, then name |
| DefinitionComparers.ParameterListOrder | Mono.ApiTools.ApiInfo/Data/MethodDefinitionComparer.cs:55-64 | parameter lists of different lengths compare by the raw length difference, and tie exactly when length and signature agree |
| DefinitionComparers.ParameterListOrderAntisymmetric | Mono.ApiTools.ApiInfo/Data/MethodDefinitionComparer.cs:55-64 | swapping the lists negates the result |
| DefinitionComparers.ParameterListOrderTransitive | Mono.ApiTools.ApiInfo/Data/MethodDefinitionComparer.cs:55-64 | the parameter-list order is transitive, strictly and with ties |
| DefinitionComparers.GenericAndReturnOrder | Mono.ApiTools.ApiInfo/Data/MethodDefinitionComparer.cs:41-52 | the tail of the comparison ties exactly when generic arity and return type full name agree |
| DefinitionComparers.GenericAndReturnAntisymmetric | Mono.ApiTools.ApiInfo/Data/MethodDefinitionComparer.cs:41-52 | swapping the methods negates the tail comparison |
| DefinitionComparers.GenericAndReturnTransitive | Mono.ApiTools.ApiInfo/Data/MethodDefinitionComparer.cs:41-52 | the tail comparison is transitive |
| DefinitionComparers.ParameterPartTransitive | Mono.ApiTools.ApiInfo/Data/MethodDefinitionComparer.cs:28-52 | the comparison after the name is transitive |
| DefinitionComparers.MethodOrderLaws | Mono.ApiTools.ApiInfo/Data/MethodDefinitionComparer.cs:20-53 | swapping methods negates the result, and two methods tie exactly when they share a name and are both parameterless or agree on parameters, generic arity and return type |
| DefinitionComparers.MethodOrderByNameFirst | Mono.ApiTools.ApiInfo/Data/MethodDefinitionComparer.cs:24-32 | the name decides first, and among same-named methods a parameterless one sorts first |
| DefinitionComparers.ParameterlessOverloadsTie | Mono.ApiTools.ApiInfo/Data/MethodDefinitionComparer.cs:28-29 | two parameterless methods of one name tie whatever their return types |
| DefinitionComparers.MethodOrderTransitive | Mono.ApiTools.ApiInfo/Data/MethodDefinitionComparer.cs:20-53 | the method order is transitive |
| DefinitionComparers.MethodOrderIsPreorder | Mono.ApiTools.ApiInfo/Data/MethodDefinitionComparer.cs:20-53 | the method order is a total preorder |
| DefinitionComparers.PropertyOrder | Mono.ApiTools.ApiInfo/Data/PropertyDefinitionComparer.cs:18-34 | properties compare by name first, and tie exactly when they share a name and are both unindexed or have equal parameter lists |
| DefinitionComparers.PropertyOrderAntisymmetric | Mono.ApiTools.ApiInfo/Data/PropertyDefinitionComparer.cs:18-34 | swapping the properties negates the result |
| DefinitionComparers.SameNamedPropertiesTie | Mono.ApiTools.ApiInfo/Data/PropertyDefinitionComparer.cs:24-25 | two unindexed properties of one name tie even when their types differ |
| DefinitionComparers.PropertyOrderIsPreorder | Mono.ApiTools.ApiInfo/Data/PropertyDefinitionComparer.cs:18-34 | the property order is a total preorder |
| TypeNames.CleanChar | Mono.ApiTools.ApiInfo/Utils.cs:33-47 | '<' becomes '[', '>' becomes ']', '/' becomes '+', and every other character is kept |
| TypeNames.CleanupTypeName | Mono.ApiTools.ApiInfo/Utils.cs:25-51 | the cleaned name has the same length, each character rewritten one for one, and none of '<', '>', '/' |
| TypeNames.BuildCleanName | Mono.ApiTools.ApiInfo/Utils.cs:25-51 | the StringBuilder loop produces the same name as the character-wise rewrite |
| TypeNames.CleanupIdempotent | Mono.ApiTools.ApiInfo/Utils.cs:25-51 | cleaning a cleaned name changes nothing |
| TypeNames.CleanupFixedIff | Mono.ApiTools.ApiInfo/Utils.cs:27-28 | a name is left unchanged exactly when it has nothing to rewrite |
| TypeNames.CleanupNotInjective | Mono.ApiTools.ApiInfo/Utils.cs:42-44 | a nested-type name "A/B" and the name "A+B" are cleaned to the same text |
| Metadata.FlagsToInt | Mono.ApiTools.ApiInfo/Data/MethodData.cs:38 | the (int) cast of a flags word lies in the signed 32-bit range and keeps values below 2^31 |
| FormattedDiff.NewChange | Mono.ApiTools.ApiDiffFormatted/ApiChange.cs:5-19 | a new change has empty text and no flag set, and keeps its source description |
| FormattedDiff.Append | Mono.ApiTools.ApiDiffFormatted/ApiChange.cs:21-25 | plain text grows the text and changes nothing else |
| FormattedDiff.AppendAdded | Mono.ApiTools.ApiDiffFormatted/ApiChange.cs:27-33 | an addition extends the text, records a difference, and makes the change breaking iff it was or the addition is |
| FormattedDiff.AppendRemoved | Mono.ApiTools.ApiDiffFormatted/ApiChange.cs:35-41 | a removal extends the text, records a difference, and makes the change breaking iff it was or the removal is |
| FormattedDiff.AppendModified | Mono.ApiTools.ApiDiffFormatted/ApiChange.cs:43-49 | a modification extends the text, records a difference, and makes the change breaking iff it was or the modification is |
| FormattedDiff.DefaultBreaking | Mono.ApiTools.ApiDiffFormatted/ApiChange.cs:27-49 | with default arguments an addition leaves Breaking unchanged, while a removal or a modification makes the change breaking |
| FormattedDiff.RunFlags | Mono.ApiTools.ApiDiffFormatted/ApiChange.cs:21-49 | after a chain of appends, a difference is recorded iff one was recorded before or some step is an addition, removal or modification, breaking likewise, and the text only grows |
| FormattedDiff.TextOnlyIsNoChange | Mono.ApiTools.ApiDiffFormatted/ApiChange.cs:21-25 | a new change that only received plain text reports no difference and is not breaking |
| FormattedDiff.AnyMatch | Mono.ApiTools.ApiDiffFormatted/ApiChanges.cs:40-41 | a description is ignored iff some ignore-removed pattern matches it |
| FormattedDiff.Description | Mono.ApiTools.ApiDiffFormatted/ApiChanges.cs:38 | the matched description starts with namespace, '.', type name and ": ", and ends with ": " and the source description |
| FormattedDiff.AddChange | Mono.ApiTools.ApiDiffFormatted/ApiChanges.cs:18-50 | a change without a difference or with an ignored description leaves the table alone; otherwise it is appended to its header's list, a new header being added last, and no other list changes |
| FormattedDiff.ChangesOf | Mono.ApiTools.ApiDiffFormatted/ApiChanges.cs:43-49 | one change per report, in order |
| FormattedDiff.AddAllGroups | Mono.ApiTools.ApiDiffFormatted/ApiChanges.cs:18-50 | from an empty table, each header's list is exactly the kept changes with that header, in report order |
| FormattedDiff.AppendChanges | Mono.ApiTools.ApiDiffFormatted/ApiChanges.cs:43-49 | the changes of appended reports are the changes so far followed by the new one |
| FormattedDiff.AddAllHeaders | Mono.ApiTools.ApiDiffFormatted/ApiChanges.cs:43-48 | from an empty table, the headers are distinct and are exactly those of kept changes |
| FormattedDiff.FormatterFor | Mono.ApiTools.ApiDiffFormatted/ApiDiffFormatted.cs:115-125 | HTML and Markdown have a formatter, and anything else is an ArgumentException |
| FormattedDiff.CreateState | Mono.ApiTools.ApiDiffFormatted/ApiDiffFormatted.cs:93-140 | building the state fails exactly for an unknown formatter, with an ArgumentException |
| FormattedDiff.NullConfigIsDefault | Mono.ApiTools.ApiDiffFormatted/ApiDiffFormatted.cs:95-96 | a missing configuration behaves exactly as the default one |
| FormattedDiff.CreateStateSettings | Mono.ApiTools.ApiDiffFormatted/ApiDiffFormatted.cs:98-137 | settings are copied from the configuration, and ignoring non-breaking changes also ignores added setters and virtual changes and adds a match-all pattern to the ignore-added and ignore-new lists, never to ignore-removed |
| FormattedDiff.AnyMatchAppend | Mono.ApiTools.ApiDiffFormatted/ApiDiffFormatted.cs:135-136 | a pattern list extended by a pattern matches whatever the list or the pattern matches |
| FormattedDiff.NonbreakingIgnoresAllAdditions | Mono.ApiTools.ApiDiffFormatted/ApiDiffFormatted.cs:131-137 | ignoring non-breaking changes makes every description count as ignored for additions and new members, and leaves removals as configured |
| FormattedDiff.TitleNames | Mono.ApiTools.ApiDiffFormatted/ApiDiffFormatted.cs:81-83 | the title starts with the source's file name, ends with the target's, and names one file exactly when the names agree |
| FormattedDiff.Document | Mono.ApiTools.ApiDiffFormatted/ApiDiffFormatted.cs:69-91 | nothing is written for an empty diff; otherwise the diff is framed by the document and assembly begin and end texts under the title "API diff: " and the title |
| NuGetDiff.ExtensionScan | Mono.ApiTools.NuGetDiff/NuGetDiff.cs:162 | the extension found is empty or a suffix of the path of at least two characters starting with '.' |
| NuGetDiff.IsDllIff | Mono.ApiTools.NuGetDiff/NuGetDiff.cs:162 | an item is an assembly exactly when its path ends in ".dll" in any letter case |
| NuGetDiff.ExtensionOfDllSuffix | Mono.ApiTools.NuGetDiff/NuGetDiff.cs:162 | the extension of such a path is its last four characters |
| NuGetDiff.Frameworks | Mono.ApiTools.NuGetDiff/NuGetDiff.cs:124 | the target frameworks of the lib groups, one per group, in order |
| NuGetDiff.FrameworkAssemblies | Mono.ApiTools.NuGetDiff/NuGetDiff.cs:157-165 | a framework's assemblies are the dll items of the first group targeting it, none when no group does |
| NuGetDiff.FrameworkAssembliesFirst | Mono.ApiTools.NuGetDiff/NuGetDiff.cs:159-162 | the dll items of the first group that targets the framework are taken, whatever later groups hold |
| NuGetDiff.MergedFrameworks | Mono.ApiTools.NuGetDiff/NuGetDiff.cs:120-124 | the merged frameworks are those of either package, each once; a missing old package contributes none |
| NuGetDiff.MergedGroups | Mono.ApiTools.NuGetDiff/NuGetDiff.cs:125-130 | one group per merged framework, in order, holding the old and the new dll items for it |
| NuGetDiff.MergedGroupsDistinct | Mono.ApiTools.NuGetDiff/NuGetDiff.cs:124-130 | the merged groups carry distinct frameworks |
| NuGetDiff.GroupOf | Mono.ApiTools.NuGetDiff/NuGetDiff.cs:125-130 | every merged framework has its group |
| NuGetDiff.FrameworksWhere | Mono.ApiTools.NuGetDiff/NuGetDiff.cs:139-141 | the selected frameworks are exactly those of groups meeting the condition |
| NuGetDiff.SelectedFramework | Mono.ApiTools.NuGetDiff/NuGetDiff.cs:139-141 | a merged framework is selected exactly when its group meets the condition |
| NuGetDiff.Except | Mono.ApiTools.NuGetDiff/NuGetDiff.cs:144-145 | Except holds each element of the first list not in the second, once |
| NuGetDiff.Intersect | Mono.ApiTools.NuGetDiff/NuGetDiff.cs:146 | Intersect holds each element of the first list also in the second, once |
| NuGetDiff.AssembliesBy | Mono.ApiTools.NuGetDiff/NuGetDiff.cs:149-155 | the dictionary built has distinct keys when ToDictionary does not throw |
| NuGetDiff.AssembliesByOk | Mono.ApiTools.NuGetDiff/NuGetDiff.cs:149-155 | with distinct frameworks ToDictionary does not throw, and each framework maps to its picked list exactly when that list is not empty |
| NuGetDiff.PickedAt | Mono.ApiTools.NuGetDiff/NuGetDiff.cs:149-155 | looked up at a framework, a dictionary gives that framework's picked list when it is merged and the list is not empty |
| NuGetDiff.Generate | Mono.ApiTools.NuGetDiff/NuGetDiff.cs:113-147 | the result carries the old identity only when there is an old package, and the new identity; each assembly dictionary has distinct framework keys |
| NuGetDiff.GenerateOk | Mono.ApiTools.NuGetDiff/NuGetDiff.cs:113-155 | the comparison never throws, because the dictionaries are keyed by distinct frameworks |
| NuGetDiff.FrameworkSplit | Mono.ApiTools.NuGetDiff/NuGetDiff.cs:139-141 | a framework is added iff the old package has no dlls for it, removed iff the new one has none, and unchanged iff both have some |
| NuGetDiff.AssemblySplit | Mono.ApiTools.NuGetDiff/NuGetDiff.cs:144-155 | per framework, added are new dlls not old, removed are old not new, unchanged are both, each entry written only when not empty |
| NuGetDiff.NoOldPackage | Mono.ApiTools.NuGetDiff/NuGetDiff.cs:116-120 | without an old package every framework of the new one is added, none unchanged, and no assembly removed or unchanged |
| NuGetDiff.SamePackage | Mono.ApiTools.NuGetDiff/NuGetDiff.cs:139-146 | a package compared with itself adds and removes no assembly, and the added and removed frameworks coincide |
| NuGetDiff.Presence | Mono.ApiTools.NuGetDiff/NuGetDiff.cs:667-676 | presence is "extra" iff added, "missing" iff removed and not added, and absent otherwise |
| NuGetDiff.AssemblyPresenceSpec | Mono.ApiTools.NuGetDiff/NuGetDiff.cs:678-687 | an assembly is "extra" when some framework lists it as added, and "missing" when none does but some lists it as removed |
| NuGetDiff.GeneratedFrameworkPresence | Mono.ApiTools.NuGetDiff/NuGetDiff.cs:667-676 | a merged framework is "extra" when the old package has no dlls for it, else "missing" when the new one has none, else has no presence |
| NuGetDiff.ParseTotal | Mono.ApiTools.NuGetDiff/NuGetDiff.cs:352-354 | a missing total attribute counts as 0 |
| NuGetDiff.PackageTotals | Mono.ApiTools.NuGetDiff/NuGetDiff.cs:313-354 | the running totals stay in the signed 32-bit range |
| NuGetDiff.AddTotals | Mono.ApiTools.NuGetDiff/NuGetDiff.cs:352-354 | one assembly's contribution keeps the totals in the signed 32-bit range |
| NuGetDiff.WrittenCount | Mono.ApiTools.NuGetDiff/NuGetDiff.cs:341-343 | a total attribute is present exactly when the count is |
| NuGetDiff.WrittenAll | Mono.ApiTools.NuGetDiff/NuGetDiff.cs:321-354 | one set of written counts per assembly diff, none for a skipped one |
| NuGetDiff.ParseWritten | Mono.ApiTools.NuGetDiff/NuGetDiff.cs:352-354 | a written count parses back as itself, and a missing one as 0 |
| NuGetDiff.AddParsed | Mono.ApiTools.NuGetDiff/NuGetDiff.cs:346-354 | an assembly whose three totals parse adds them to the package totals with 32-bit wrap-around; an assembly with none of the three counts as zeros |
| NuGetDiff.WrittenParses | Mono.ApiTools.NuGetDiff/NuGetDiff.cs:352-354 | each count the API diff writes on an assembly reads back as itself through `int.Parse(value ?? "0")` |
| NuGetDiff.PackageTotalsLast | Mono.ApiTools.NuGetDiff/NuGetDiff.cs:321-354 | the totals loop over one more assembly adds that assembly's counts |
| NuGetDiff.AddWrittenExact | Mono.ApiTools.NuGetDiff/NuGetDiff.cs:352-354 | in-range totals whose sums stay in range are added exactly |
| NuGetDiff.TotalsAreSums | Mono.ApiTools.NuGetDiff/NuGetDiff.cs:313-354 | when no sum exceeds the int range, the totals are the exact sums of the per-assembly counts |
| NuGetDiff.TotalsAttributes | Mono.ApiTools.NuGetDiff/NuGetDiff.cs:403-409 | each total is written on the package element exactly when it is positive, and nothing else |
| NuGetDiff.TotalsAttributesRoundTrip | Mono.ApiTools.NuGetDiff/NuGetDiff.cs:403-409 | the written totals parse back as the totals |
| NuGetDiff.Parts | Mono.ApiTools.NuGetDiff/NuGetDiff.cs:771 | the parts are non-empty runs holding no '/' or '\\' |
| NuGetDiff.PartsEmpty | Mono.ApiTools.NuGetDiff/NuGetDiff.cs:771-775 | a path has no parts exactly when it is made of separators only |
| NuGetDiff.PartsAroundSeparator | Mono.ApiTools.NuGetDiff/NuGetDiff.cs:771 | a separator splits the parts of a path in two |
| NuGetDiff.PartsOfPart | Mono.ApiTools.NuGetDiff/NuGetDiff.cs:778-779 | a single part is its own only part |
| NuGetDiff.PartsOfJoin | Mono.ApiTools.NuGetDiff/NuGetDiff.cs:784 | splitting inverts joining non-empty separator-free parts with a separator |
| NuGetDiff.OutputFilenameBase | Mono.ApiTools.NuGetDiff/NuGetDiff.cs:768-785 | a null path counts as empty, and a path without parts is an ArgumentException |
| NuGetDiff.OutputFilenameParts | Mono.ApiTools.NuGetDiff/NuGetDiff.cs:768-785 | the output name has the parts of the path without the first, or the single part of a bare file name |
| NuGetDiff.DiffedAssemblies | Mono.ApiTools.NuGetDiff/NuGetDiff.cs:317-321 | with added assemblies ignored the flattened unchanged lists are diffed as they are, as many entries as the lists hold together; otherwise each assembly is diffed once |
| NuGetDiff.DiffedAssembliesMember | Mono.ApiTools.NuGetDiff/NuGetDiff.cs:317-321 | an assembly is diffed exactly when some framework lists it as unchanged or, unless added assemblies are ignored, as added |
| NuGetDiff.OldSideOf | Mono.ApiTools.NuGetDiff/NuGetDiff.cs:324-327 | the old side of an assembly's diff is the empty API exactly when some framework lists the assembly as added |
| NuGetDiff.AddedAt | Mono.ApiTools.NuGetDiff/NuGetDiff.cs:144-155 | a framework lists an assembly as added exactly when the new package's group for it has the dll and the old package's does not |
| NuGetDiff.OldSideOfGenerated | Mono.ApiTools.NuGetDiff/NuGetDiff.cs:317-327 | for a comparison, an assembly is diffed against an empty API exactly when some framework's new dlls have it and its old dlls do not, even where another framework has it unchanged |
| NuGetDiff.FileName | Mono.ApiTools.NuGetDiff/NuGetDiff.cs:650 | the file name is the end of the path after its last directory separator, and holds no separator |
| NuGetDiff.LastDot | Mono.ApiTools.NuGetDiff/NuGetDiff.cs:650 | finds the last '.' of a file name, or reports that it has none |
| NuGetDiff.DllName | Mono.ApiTools.NuGetDiff/NuGetDiff.cs:650 | the listed name of a dll item is its file name without the four-character extension, and name followed by extension is the file name |
| NuGetDiff.NameOfDotSuffix | Mono.ApiTools.NuGetDiff/NuGetDiff.cs:650 | a path ending in '.' and three name characters has a file name ending in them, and its name without extension drops exactly those four characters |
| NuGetDiff.CreateAssemblies | Mono.ApiTools.NuGetDiff/NuGetDiff.cs:636-656 | no `assemblies` element exactly when the framework has no path to list; otherwise one `assembly` per listed path, in order, named by the file name without extension |
| NuGetDiff.ListedPathsOfGenerated | Mono.ApiTools.NuGetDiff/NuGetDiff.cs:636-656 | for a comparison a framework lists the dlls both packages have, then (unless added assemblies are ignored) those only the new one has: each once, and without the ignore flag exactly the new package's dlls; no element exactly when nothing qualifies |
| NuGetSpec.TypeOfSwap | Mono.ApiTools.NuGetDiff/NuGetSpecDiff.cs:82-95 | exchanging the sides exchanges added and removed and keeps unchanged and modified |
| NuGetSpec.AttributesNotCompared | Mono.ApiTools.NuGetDiff/NuGetSpecDiff.cs:90-91 | elements with the same content are unchanged whatever their attributes |
| NuGetSpec.ToFormattedString | Mono.ApiTools.NuGetDiff/NuGetSpecDiff.cs:97-110 | formatting fails with a NullReferenceException exactly when both sides are absent |
| NuGetSpec.FormattedStringSpec | Mono.ApiTools.NuGetDiff/NuGetSpecDiff.cs:97-110 | a difference formats to empty text exactly when there is none; an addition starts with "+", a removal or modification with "-" |
| NuGetSpec.FirstChildIndexIs | Mono.ApiTools.NuGetDiff/NuGetSpecDiff.cs:34 | Element(name) finds the first position holding a child of that name |
| NuGetSpec.FirstChildAfterRemoval | Mono.ApiTools.NuGetDiff/NuGetSpecDiff.cs:50 | removing a node of another name keeps the first child of that name |
| NuGetSpec.FirstChildAfterUpdate | Mono.ApiTools.NuGetDiff/NuGetSpecDiff.cs:52-65 | replacing a child by one of the same name keeps the position of the first child of every name |
| NuGetSpec.ChildCountAppend | Mono.ApiTools.NuGetDiff/NuGetSpecDiff.cs:29 | children counts add over concatenated node lists |
| NuGetSpec.RemoveAttribute | Mono.ApiTools.NuGetDiff/NuGetSpecDiff.cs:54-55 | removing an attribute keeps every attribute of another name, and with unique names leaves none of that name |
| NuGetSpec.RemoveVersion | Mono.ApiTools.NuGetDiff/NuGetSpecDiff.cs:50 | removing the version element keeps the metadata element's name and attributes |
| NuGetSpec.StripRepository | Mono.ApiTools.NuGetDiff/NuGetSpecDiff.cs:52-56 | stripping the repository attributes keeps the metadata element's name and attributes |
| NuGetSpec.StripTagsVersion | Mono.ApiTools.NuGetDiff/NuGetSpecDiff.cs:60-66 | stripping the tag version keeps the metadata element's name and attributes |
| NuGetSpec.StripVersionMetadata | Mono.ApiTools.NuGetDiff/NuGetSpecDiff.cs:44-67 | stripping version metadata keeps the metadata element's name and attributes |
| NuGetSpec.RemoveVersionKeepsOthers | Mono.ApiTools.NuGetDiff/NuGetSpecDiff.cs:50 | removing the version element keeps the first child of every other name |
| NuGetSpec.RemoveVersionCount | Mono.ApiTools.NuGetDiff/NuGetSpecDiff.cs:50 | removing the version element drops exactly one version child when there is one |
| NuGetSpec.ChildCountRemoveAt | Mono.ApiTools.NuGetDiff/NuGetSpecDiff.cs:50 | removing a node lowers a name's count by one exactly when that node is a child of the name |
| NuGetSpec.NoChildCount | Mono.ApiTools.NuGetDiff/NuGetSpecDiff.cs:50 | a list without a child of a name counts none |
| NuGetSpec.UpdateSpec | Mono.ApiTools.NuGetDiff/NuGetSpecDiff.cs:52-65 | replacing a child by one of the same name keeps every first child and every count |
| NuGetSpec.StripRepositorySpec | Mono.ApiTools.NuGetDiff/NuGetSpecDiff.cs:52-56 | stripping keeps every other first child and all counts, keeps the repository element and its text, and leaves it no branch or commit attribute |
| NuGetSpec.StripTagsKeepsOthers | Mono.ApiTools.NuGetDiff/NuGetSpecDiff.cs:60-66 | stripping the tag version keeps the first child of every other name and every count |
| NuGetSpec.StripTagsText | Mono.ApiTools.NuGetDiff/NuGetSpecDiff.cs:60-66 | the tags text gets the version the artifact tag names replaced by "[Version]", and is unchanged when no version is found |
| NuGetSpec.StripVersionMetadataOthers | Mono.ApiTools.NuGetDiff/NuGetSpecDiff.cs:44-67 | stripping version metadata keeps the first child of every name other than version, repository and tags |
| NuGetSpec.StripVersionMetadataVersion | Mono.ApiTools.NuGetDiff/NuGetSpecDiff.cs:50 | with at most one version element, stripping takes it out of the comparison |
| NuGetSpec.StripVersionMetadataRepository | Mono.ApiTools.NuGetDiff/NuGetSpecDiff.cs:52-56 | stripping keeps the repository element and its text, so never changes whether it is reported |
| NuGetSpec.StripVersionMetadataTags | Mono.ApiTools.NuGetDiff/NuGetSpecDiff.cs:58-66 | stripping replaces, in the tags text, the version its artifact tag names |
| NuGetSpec.CountedChild | Mono.ApiTools.NuGetDiff/NuGetSpecDiff.cs:29 | a list holding a child of a name counts it |
| NuGetSpec.ChildNames | Mono.ApiTools.NuGetDiff/NuGetSpecDiff.cs:29 | the names listed are exactly the local names of the element children |
| NuGetSpec.CompareAll | Mono.ApiTools.NuGetDiff/NuGetSpecDiff.cs:32-35 | one comparison per name, of the two sides' first elements of that name |
| NuGetSpec.CompareMetadata | Mono.ApiTools.NuGetDiff/NuGetSpecDiff.cs:29-41 | only real differences are reported |
| NuGetSpec.NamedChildFound | Mono.ApiTools.NuGetDiff/NuGetSpecDiff.cs:34 | a name with a child on a namespace-free side finds that side's first element of the name |
| NuGetSpec.CompareAllNames | Mono.ApiTools.NuGetDiff/NuGetSpecDiff.cs:29-35 | each compared pair is named by the name it was looked up by |
| NuGetSpec.CompareMetadataSpec | Mono.ApiTools.NuGetDiff/NuGetSpecDiff.cs:29-41 | a name is reported exactly when a child of that name is on either side and the first such elements differ in text |
| NuGetSpec.CompareMetadataReports | Mono.ApiTools.NuGetDiff/NuGetSpecDiff.cs:32-38 | a differing name is reported with its own pair |
| NuGetSpec.CompareMetadataReported | Mono.ApiTools.NuGetDiff/NuGetSpecDiff.cs:32-38 | every reported difference is named after a name present on a side |
| NuGetSpec.Generate | Mono.ApiTools.NuGetDiff/NuGetSpecDiff.cs:14-42 | a nuspec without a package root holding a metadata element is an ArgumentException("Malformed Nuspec xml") |
| NuGetSpec.StrippedChild | Mono.ApiTools.NuGetDiff/XElementExtensions.cs:10-16 | a child of a stripped tree is a stripped child of the original |
| NuGetSpec.StrippedChildrenLocal | Mono.ApiTools.NuGetDiff/XElementExtensions.cs:10-16 | stripped elements have namespace-free children |
| NuGetSpec.StripVersionMetadataLocal | Mono.ApiTools.NuGetDiff/NuGetSpecDiff.cs:44-67 | stripping version metadata keeps the children namespace-free |
| NuGetSpec.PreparedLocal | Mono.ApiTools.NuGetDiff/NuGetSpecDiff.cs:17-27 | the metadata the comparison sees has namespace-free children |
| NuGetSpec.GenerateOkIff | Mono.ApiTools.NuGetDiff/NuGetSpecDiff.cs:17-21 | the comparison fails exactly when a given nuspec lacks the package root or its metadata child; an absent one counts as empty |
| NuGetSpec.PreparedIff | Mono.ApiTools.NuGetDiff/NuGetSpecDiff.cs:17-21 | a side's metadata is found exactly when the nuspec is absent or well formed |
| NuGetSpec.GenerateSpec | Mono.ApiTools.NuGetDiff/NuGetSpecDiff.cs:14-42 | a name is reported exactly when a child of that name is on either prepared side and the first such elements differ |
| NuGetSpec.GenerateSame | Mono.ApiTools.NuGetDiff/NuGetSpecDiff.cs:14-42 | a nuspec compared with itself has no differences |
| NuGetSpec.PreparedAbsent | Mono.ApiTools.NuGetDiff/NuGetSpecDiff.cs:17-18 | an absent nuspec has a childless metadata element |
| NuGetSpec.GenerateWithoutOld | Mono.ApiTools.NuGetDiff/NuGetSpecDiff.cs:17-42 | without an old nuspec every reported element is added |
| NuGetSpec.GenerateWithoutNew | Mono.ApiTools.NuGetDiff/NuGetSpecDiff.cs:17-42 | without a new nuspec every reported element is removed |
| NuGetSpec.CompareWithEmptyOld | Mono.ApiTools.NuGetDiff/NuGetSpecDiff.cs:86-87 | against a childless old side every difference is an addition |
| NuGetSpec.CompareWithEmptyNew | Mono.ApiTools.NuGetDiff/NuGetSpecDiff.cs:88-89 | against a childless new side every difference is a removal |
| XElementExtensions.TextValue | Mono.ApiTools.NuGetDiff/NuGetSpecDiff.cs:65 | an element holding a single text node has that text as its value |
| XElementExtensions.ChildElements | Mono.ApiTools.NuGetDiff/NuGetSpecDiff.cs:29 | the element children are exactly the Child nodes |
| XElementExtensions.FirstChildIndex | Mono.ApiTools.NuGetDiff/NuGetSpecDiff.cs:34 | the index is that of the first child with the name, absent exactly when there is none |
| XElementExtensions.FirstChild | Mono.ApiTools.NuGetDiff/NuGetSpecDiff.cs:34 | Element(name) is a child with that name, absent exactly when no child has it |
| XElementExtensions.StripElement | Mono.ApiTools.NuGetDiff/XElementExtensions.cs:10-16 | every element is renamed to its local name, attributes kept |
| XElementExtensions.StripNodes | Mono.ApiTools.NuGetDiff/XElementExtensions.cs:12-13 | stripping keeps the number of nodes |
| XElementExtensions.StripRemovesNamespaces | Mono.ApiTools.NuGetDiff/XElementExtensions.cs:10-16 | after stripping no element of the tree has a namespace |
| XElementExtensions.StripNodesRemoveNamespaces | Mono.ApiTools.NuGetDiff/XElementExtensions.cs:12-13 | after stripping no node of a list has a namespace |
| XElementExtensions.StripNodeRemovesNamespaces | Mono.ApiTools.NuGetDiff/XElementExtensions.cs:12-13 | after stripping a node has no namespace |
| XElementExtensions.StripKeepsValue | Mono.ApiTools.NuGetDiff/XElementExtensions.cs:10-16 | stripping namespaces does not change an element's text |
| XElementExtensions.StripNodesKeepValue | Mono.ApiTools.NuGetDiff/XElementExtensions.cs:12-13 | stripping does not change the text of a node list |
| XElementExtensions.StripNodeKeepsValue | Mono.ApiTools.NuGetDiff/XElementExtensions.cs:12-13 | stripping does not change the text of a node |
| XElementExtensions.StripWithoutNamespaces | Mono.ApiTools.NuGetDiff/XElementExtensions.cs:10-16 | a tree without namespaces is left as it is |
| XElementExtensions.StripNodesWithoutNamespaces | Mono.ApiTools.NuGetDiff/XElementExtensions.cs:12-13 | a node list without namespaces is left as it is |
| XElementExtensions.StripNodeWithoutNamespaces | Mono.ApiTools.NuGetDiff/XElementExtensions.cs:12-13 | a node without namespaces is left as it is |
| XElementExtensions.StripIdempotent | Mono.ApiTools.NuGetDiff/XElementExtensions.cs:10-16 | stripping twice is stripping once |
| XElementExtensions.StripChildElements | Mono.ApiTools.NuGetDiff/XElementExtensions.cs:12-13 | the element children after stripping are the stripped children |
| XElementExtensions.MapStrip | Mono.ApiTools.NuGetDiff/XElementExtensions.cs:12-13 | each element of the list stripped, in order |
| XElementExtensions.LineLength | Mono.ApiTools.NuGetDiff/XElementExtensions.cs:27 | a line runs up to the first CR or LF |
| XElementExtensions.AfterLine | Mono.ApiTools.NuGetDiff/XElementExtensions.cs:27 | reading a line consumes at least its terminator, so reading ends |
| XElementExtensions.ReadLines | Mono.ApiTools.NuGetDiff/XElementExtensions.cs:25-28 | empty text has no lines, and no line holds a terminator |
| XElementExtensions.ReadLineThenRest | Mono.ApiTools.NuGetDiff/XElementExtensions.cs:27 | a line ended by the terminator is read back as that line |
| XElementExtensions.ReadLinesOfJoin | Mono.ApiTools.NuGetDiff/XElementExtensions.cs:25-28 | reading lines inverts joining them with a terminator when no line holds one and the last is not empty |
| XElementExtensions.PrefixedText | Mono.ApiTools.NuGetDiff/XElementExtensions.cs:27-28 | each line is appended as the prefix, a space and the line |
| XElementExtensions.PrefixLines | Mono.ApiTools.NuGetDiff/XElementExtensions.cs:21-31 | empty text gives empty text |
| XElementExtensions.PrefixEach | Mono.ApiTools.NuGetDiff/XElementExtensions.cs:28 | each line prefixed by the prefix and a space, in order |
| XElementExtensions.PrefixedTextIsJoin | Mono.ApiTools.NuGetDiff/XElementExtensions.cs:23-28 | the text before trimming is the prefixed lines, each followed by the terminator |
| XElementExtensions.TrimOfTail | Mono.ApiTools.NuGetDiff/XElementExtensions.cs:30 | trimming takes off only a white-space tail when the text starts and ends with something else |
| XElementExtensions.PrefixLinesOfJoin | Mono.ApiTools.NuGetDiff/XElementExtensions.cs:21-31 | prefixing joined lines gives the prefixed lines joined, the final trim only dropping the last terminator |
| XElementExtensions.PrefixLinesStartsWithPrefix | Mono.ApiTools.NuGetDiff/XElementExtensions.cs:21-31 | non-empty text with a prefix free of white space gives a result starting with the prefix |
| NuGetDiffResult.ByShortNameIsPreorder | Mono.ApiTools.NuGetDiff/NuGetDiffResult.cs:52 | ordering frameworks by short folder name is a total preorder |
| NuGetDiffResult.AllFrameworksSpec | Mono.ApiTools.NuGetDiff/NuGetDiffResult.cs:46-54 | every framework of the three lists appears exactly once, nothing else, ordered by short folder name |
| NuGetDiffResult.AllValues | Mono.ApiTools.NuGetDiff/NuGetDiffResult.cs:56-69 | the flattened lists hold as many entries as all the lists together |
| NuGetDiffResult.AllValuesMember | Mono.ApiTools.NuGetDiff/NuGetDiffResult.cs:56-69 | an entry is in the flattening exactly when some framework's list holds it |
| NuGetDiffResult.AllAssembliesSpec | Mono.ApiTools.NuGetDiff/NuGetDiffResult.cs:56-64 | the added and removed assemblies are exactly those listed under some framework, as many as all the lists together |
| PackageDiffResult.GetAllFrameworks | NuGetComparer/PackageDiff.cs:34-42 | every framework of the three lists appears exactly once, nothing else, ordered by short folder name |
| AssemblyOutput.WrittenNamespaces | Mono.ApiTools.ApiInfo/Data/AssemblyData.cs:63-95 | A namespace occurs among the written types exactly when some type the assembly describes (named namespace, public unless in ABI mode, not nested) belongs to it. |
| NameGroup.GroupResult | Mono.ApiTools.ApiDiff/XMLNameGroup.cs:86-97 | Each extra item adds one to the Extra counter; the group element is appended to the parent only when it has children (compared items or extras), and then holds them in order; otherwise the parent is unchanged. |
| NodeComparer.SortedWhenComparison | Mono.ApiTools.ApiDiff/XmlNodeComparer.cs:24-29 | Under a string comparison that is a total preorder, sorting nodes by their name attribute yields a list ordered by that comparison. |
| Classes.CompareInterfaces | Mono.ApiTools.ApiDiff/XMLClass.cs:182-188 | Comparing the interface groups of two classes always succeeds (a missing side counts as an empty group) and never yields a negative warning count. |
| Classes.CompareTypeConstraints | Mono.ApiTools.ApiDiff/XMLClass.cs:190-196 | Comparing the generic type constraint groups always succeeds (a missing side counts as an empty group) and never yields a negative warning count. |

## Left out

- I/O is not modelled: file, stream and network access; package download, hashing, extraction and caching; `SaveToFileAsync` and the `Task.Run` wrappers of `NuGetDiff.cs`. The model starts from the package contents and the XML trees.
- `ApiInfo.cs`, `AssemblyCollection.cs`, `State.cs`, `ApiInfoConfig.cs`, `DefaultXmlWriter.cs` and `ApiDiff.cs` are not part of this model. They only load documents and delegate to writers.
- The command-line layer, `AssemblyMerger.cs`, the version lookups, the `Write` methods of the result classes and the fully commented-out driver files are not part of this model.
- Cecil metadata resolution and `TypeHelper` are parameters. This covers the base-type chain, interfaces, delegates, base methods and exported-type resolution, and the `resolve`, `bases` and chain parameters stand for them.
- `XMLInterfaces.cs`, `XMLConstructors.cs` and the generic constraint group classes are not part of this model. Interfaces are modelled as a plain name group, constructors as a method group, and generic constraints as a generic group.
- Generic method constraints are loaded but never compared. This follows the source.
- `Enum.ToString` of method, field and event attributes is rendered as the decimal value of the normalised flags. That rendering is an injective stand-in for the enum names.
- Culture-sensitive `String.Compare` is the parameter `cmp`. Its total-preorder laws appear as preconditions only where sortedness is proved. Ordinal comparison is modelled concretely, in UTF-16 code-unit order.
- Methods.MethodKey: models the culture-sensitive `name.StartsWith("op_")` (XMLMethods.cs:95) as an ordinal prefix test. A culture comparison can ignore characters such as a soft hyphen, so a name like "o\u00ADp_Addition" may count as an operator in .NET but not in the model.
- XmlData.TodoIffSuffix: models the culture-sensitive `EndsWith` calls (XMLData.cs:60-67) as ordinal suffix tests, with the same caveat about ignorable characters.
- `Array.Sort`, `List.Sort` and `OrderBy` are modelled by one stable insertion sort. Results are proved to be permutations that are sorted by the comparer. The source's instability is not modelled: for elements that compare equal, the order is the model's choice.
- Hashtable and Dictionary enumeration order is insertion order in the model, not hash order. The counter results are proved independent of that order.
- Only ASCII case mapping is modelled for `ToLowerInvariant`, `ToUpperInvariant` and the culture-sensitive `ToUpper()` of AttributeOutput.PropertyValueText. Under a culture such as Turkish, `ToUpper()` maps 'i' to 'İ', which the model does not.
- Strings.ParseBool: folds case in ASCII only. `bool.Parse` compares with OrdinalIgnoreCase, which also folds non-ASCII letters whose upper case is an ASCII letter.
- Strings.ParseInt32: skips white space around the number but not the trailing NUL characters .NET's number parser also accepts. The API descriptions the parsed attributes come from are written by this code and never hold NUL characters.
- XmlData.PercentInRange: states the range for the true percentage `Percent`. The source's `100 * counters.Ok` wraps at 32 bits (see Findings), so the range holds for the code as written only while `100 * Ok` fits in an `int`.
- XmlData.OutcomeCountsWritten: counts are unbounded integers and `complete` is the true percentage. The source's `int` counters and the product `100 * Ok` wrap at 32 bits, which the model leaves out except in XmlData.PercentAsWritten.
- XmlData.WriteTotalRatios: `complete_total` is the true percentage of the unbounded totals. The source computes `100 * OkTotal` in 32-bit arithmetic, which wraps as shown in Findings.
- AssemblyOutput.AssemblyNode: groups types by namespace with the corrected grouping `GroupByNamespace`, not with the sentinel-based grouping the source performs (see Findings). NamespacesChildAsWritten proves that the two agree whenever no type's namespace equals the sentinel "$%&$&".
- NuGetDiff.ExtensionScan: treats both '/' and '\\' as directory separators, as `Path` does on Windows. On other platforms `Path.GetExtension` and `Path.GetFileName` (NuGetDiff.FileName) stop only at '/'. NuGet item paths use '/', so the two readings differ only for item names that contain '\\'.
- NuGetDiff.OldSideOf: says which old API an assembly is diffed against, not its content. Building the empty API info and the real one reads files and runs the extractor, which is I/O.
- `DecimalConstantAttribute` reconstruction uses BCL decimal arithmetic. Its text is the parameter `decimalText`.
- The renderer, newline string, directory separator and configuration of the formatted diff are parameters.
- The regular expressions are parameters: `isMatch` for the IgnoreRemoved patterns, and `versionOf` for the nuspec tag pattern.
- `ApiChanges.Add` writes debug log messages. They are not modelled.
- `GetMethods` renames a finalizer by mutating the method definition. The model produces the renamed copy and leaves the definition unchanged.
- NuGetDiff.PackageTotals: assumes the package diff holds an assembly element for every diffed assembly. When that element is missing, the source dereferences null, and the model does not represent this. Its own contract states only the 32-bit range; TotalsAreSums states the sums.
- PackageDiffResult.GetAllFrameworks: does not promise an order among frameworks whose short folder names compare equal. `OrderBy` is stable, but the model's sort is not proved stable.
- `NuGetDiffResult.DiffResult` declares unchanged assemblies as (new path, old path) pairs. `NuGetDiff.cs:146` fills them with plain path strings from `Intersect`. The generator (`NuGetDiff.Generated`) follows the code and yields strings. The result record follows the declaration.
- Tests of members that are absent from `NuGetDiff.cs` are not modelled. These members are `TryMatchFramework`, `SimilarFrameworks`, `SaveNuGetStructureDiff` and `IgnoreMemberRegex`.

## Findings

| source | as written | input that shows it | evidently intended | confidence | as-written member | corrected member |
|---|---|---|---|---|---|---|
| Mono.ApiTools.ApiInfo/Data/AssemblyData.cs:67-95 | The namespace grouping starts from the sentinel name "$%&$&". A type whose namespace equals the sentinel therefore never opens a namespace element, and its class element is written without one. | A single public, non-nested type `T` in namespace "$%&$&" | Every written type sits inside a namespace element named after its namespace | not executed | AssemblyOutput.SentinelNamespaceLosesElement | AssemblyOutput.GroupByNamespaceSpec |
| Mono.ApiTools.ApiDiff/XMLData.cs:101-104 | `complete` is `100 * counters.Ok / counters.Total` in C# `int` arithmetic (and `complete_total` likewise at lines 124-125). The product wraps once Ok exceeds 21474836, giving a negative or too-small percentage. | An element whose 21474837 examined items are all ok: 100 * 21474837 wraps to -2147483596, and the written `complete` is -99 | `complete` is 100 for a fully ok element, and always lies in 0..100 | not executed | XmlData.PercentAsWrittenWraps | XmlData.PercentInRange |
