# Recaf auto-completion, modelled in Dafny

This project models `AutoCompleteUtil`, the completion engine of the Recaf bytecode
editor's assembler. It offers four kinds of completion:

- internal class names (`internalName`), such as `java/lang/Str` → `java/lang/String`;
- partial reference descriptors (`descriptorName`), such as `[La/B` → `[La/Bar;`;
- method signatures (`method`), of the form `name(args)ret`;
- field signatures (`field`), of the form `name type`.

Class names come from a class-name index (`classNames`). With a workspace open, the
index merges the workspace's classes with the system classpath's. Without one, it is
the system list. Method and field completion first resolve the owner class that the
parser has read. The workspace's version of the owner wins over the classpath's.
The owner's member signatures are then filtered on the typed prefix and sorted.

The collaborators are plain data passed as parameters:

- the current workspace: `Option<Workspace>`, holding its class names and a member list per class reader;
- the system classpath: `Runtime`, holding the system class list and the loadable classes by dotted name;
- the parsed owner value: `Option<string>`.

The only state is the static field `cachedClassNames`. It is a field of the class
`AutoComplete.AutoCompleteUtil`, and every use of the index overwrites it.

Modules, one file each:

| file | module | models |
|---|---|---|
| wrappers.dfy | Wrappers | `Option` |
| strings.dfy | Strings | `String.compareTo`, `startsWith`, `trim`, `replace` |
| streams.dfy | Streams | `filter`, `distinct`, `sorted(naturalOrder())` |
| environment.dfy | Environment | workspace and classpath as data |
| class_name_index.dfy | ClassNameIndex | `classNames`, `internalName` |
| descriptors.dfy | Descriptors | `descriptorName` |
| signatures.dfy | Signatures | `matchSignatures`, `method`, `field` |
| auto_complete.dfy | AutoComplete | the class and its cache field |

Some behaviours of the code worth noting:

- The descriptor prefix is any leading run of `L` and `[` characters. `LLa` gives the prefix `LL`, and `L[La` gives `L[L`.
- The first character after the prefix starts the name fragment, even when it is `;`. So `L;` is accepted, with the fragment `;`.
- Without a workspace, the index is the system list exactly as given. It is neither sorted nor deduplicated.
- The index is rebuilt on every use. No cache is ever read back, and nothing depends on the workspace's identity.
- `internalName` tests the untrimmed input for emptiness. A blank, non-empty input therefore completes to every non-empty index name instead of to nothing.
- `method` and `field` have no emptiness test. An empty `part` offers every signature of the owner.

## Model

| member | source | states |
|---|---|---|
| Strings.Less | src/main/java/me/coley/recaf/util/AutoCompleteUtil.java:41 | `compareTo < 0` on strings: the first differing char decides, and a proper prefix comes first (it also orders the `sorted()` at line 190) |
| Strings.LessIrreflexive | src/main/java/me/coley/recaf/util/AutoCompleteUtil.java:41 | natural order is irreflexive |
| Strings.LessTransitive | src/main/java/me/coley/recaf/util/AutoCompleteUtil.java:41 | natural order is transitive |
| Strings.LessTotal | src/main/java/me/coley/recaf/util/AutoCompleteUtil.java:41 | any two strings are equal or ordered one way |
| Strings.LessAsymmetric | src/main/java/me/coley/recaf/util/AutoCompleteUtil.java:190 | no two strings are each below the other |
| Strings.StartsWith | src/main/java/me/coley/recaf/util/AutoCompleteUtil.java:63 | `startsWith`: the prefix is no longer than the string and is its initial slice (also at lines 105 and 189) |
| Strings.StartsWithPointwise | src/main/java/me/coley/recaf/util/AutoCompleteUtil.java:105 | a string starts with a prefix exactly when it is at least as long and agrees with it at every position of the prefix |
| Strings.Trim | src/main/java/me/coley/recaf/util/AutoCompleteUtil.java:60 | the trimmed string is no longer than the input and neither starts nor ends with a char ≤ U+0020; it is empty exactly when every char is ≤ U+0020 |
| Strings.TrimPadding | src/main/java/me/coley/recaf/util/AutoCompleteUtil.java:77 | trim removes exactly the surrounding run of chars ≤ U+0020 |
| Strings.TrimUnpadded | src/main/java/me/coley/recaf/util/AutoCompleteUtil.java:77 | a string with nothing to strip at either end is its own trim |
| Strings.ReplaceChar | src/main/java/me/coley/recaf/util/AutoCompleteUtil.java:183 | replace keeps the length, turns each occurrence of `from` into `to` and keeps every other char where it was, so no `from` is left when the two differ |
| Streams.Filter | src/main/java/me/coley/recaf/util/AutoCompleteUtil.java:63 | the kept elements, each as often as in the input and only those the predicate accepts, as an order-preserving subsequence |
| Streams.FilterStrictlySorted | src/main/java/me/coley/recaf/util/AutoCompleteUtil.java:62-64 | filtering a strictly ascending list gives a strictly ascending list, so the unsorted filter of a sorted index stays sorted |
| Streams.Distinct | src/main/java/me/coley/recaf/util/AutoCompleteUtil.java:40 | no element twice, and exactly the input's elements (which of them comes first is not stated, since a sort always follows) |
| Streams.DistinctOfDistinct | src/main/java/me/coley/recaf/util/AutoCompleteUtil.java:40 | distinct leaves a duplicate-free list unchanged, so it is idempotent |
| Streams.Insert | src/main/java/me/coley/recaf/util/AutoCompleteUtil.java:190 | inserting adds exactly one element |
| Streams.InsertSorted | src/main/java/me/coley/recaf/util/AutoCompleteUtil.java:190 | inserting into a sorted list keeps it sorted |
| Streams.Sort | src/main/java/me/coley/recaf/util/AutoCompleteUtil.java:190 | the result is sorted in natural order and a permutation of the input |
| Streams.SortedUnique | src/main/java/me/coley/recaf/util/AutoCompleteUtil.java:190 | two sorted permutations of the same elements are equal, so the sorting algorithm does not matter |
| Streams.StrictlySortedUnique | src/main/java/me/coley/recaf/util/AutoCompleteUtil.java:41 | two strictly ascending lists with the same elements are equal |
| Streams.SortDistinctStrictlySorted | src/main/java/me/coley/recaf/util/AutoCompleteUtil.java:40-41 | distinct followed by sorted gives a strictly ascending list |
| ClassNameIndex.IsClassIndex | src/main/java/me/coley/recaf/util/AutoCompleteUtil.java:32-47 | what `classNames` returns: without a workspace the system list as given; with one, a strictly ascending list of exactly the workspace's and the system's names |
| ClassNameIndex.MergeNames | src/main/java/me/coley/recaf/util/AutoCompleteUtil.java:38-42 | the merged index is strictly ascending and holds exactly the union of workspace and system names |
| ClassNameIndex.ClassIndexDeterministic | src/main/java/me/coley/recaf/util/AutoCompleteUtil.java:32-47 | the index is determined by its sources and does not depend on the order in which the workspace's set is enumerated |
| ClassNameIndex.MergeExample | src/main/java/me/coley/recaf/util/AutoCompleteUtil.java:38-42 | workspace `a/B` merged with system `a/B`, `c/D` gives `a/B`, `c/D` |
| ClassNameIndex.ElementsOf | src/main/java/me/coley/recaf/util/AutoCompleteUtil.java:36-39 | enumerating the workspace's set yields each of its names exactly once |
| ClassNameIndex.InternalNameCompletions | src/main/java/me/coley/recaf/util/AutoCompleteUtil.java:59-66 | empty part gives nothing; otherwise exactly the index names that start with the trimmed part and differ from it, with their multiplicity, in index order, strictly ascending when the index is |
| ClassNameIndex.BlankPartCompletesEverything | src/main/java/me/coley/recaf/util/AutoCompleteUtil.java:60-61 | a blank non-empty part completes to every non-empty index name |
| Descriptors.MarkerRun | src/main/java/me/coley/recaf/util/AutoCompleteUtil.java:83-87 | the length of the leading run of `L`/`[` characters |
| Descriptors.Split | src/main/java/me/coley/recaf/util/AutoCompleteUtil.java:80-95 | closed exactly when a `;` follows a non-marker char; otherwise prefix + fragment is the input, the prefix is all markers, and the fragment starts with a non-marker and has no later `;` |
| Descriptors.SplitDescriptor | src/main/java/me/coley/recaf/util/AutoCompleteUtil.java:80-95 | the character loop computes Split |
| Descriptors.Token | src/main/java/me/coley/recaf/util/AutoCompleteUtil.java:76-100 | an accepted token splits the trimmed input into a marker prefix containing `L` and a non-empty fragment without a closing `;` |
| Descriptors.TokenComplete | src/main/java/me/coley/recaf/util/AutoCompleteUtil.java:76-100 | conversely, every such split of the trimmed input is accepted, so Token rejects exactly the inputs with no such split |
| Descriptors.SplitTokenizes | src/main/java/me/coley/recaf/util/AutoCompleteUtil.java:80-95 | a string that splits into a marker prefix with `L` and an open fragment is split by the loop into exactly those two parts |
| Descriptors.Wrap | src/main/java/me/coley/recaf/util/AutoCompleteUtil.java:107 | the completion `prefix + name + ";"`: it starts with the prefix, ends with `;`, and holds the name between them |
| Descriptors.UnwrapWrap | src/main/java/me/coley/recaf/util/AutoCompleteUtil.java:107 | removing the prefix and the final `;` from `prefix + name + ";"` gives back `name` |
| Descriptors.Rewrap | src/main/java/me/coley/recaf/util/AutoCompleteUtil.java:107 | one completion per name, in order, each starting with the prefix, ending with `;` and unwrapping to its name |
| Descriptors.RewrapMembers | src/main/java/me/coley/recaf/util/AutoCompleteUtil.java:107 | `prefix + n + ";"` is among the rewrapped names exactly when `n` is among the names |
| Descriptors.NamesStartingWith | src/main/java/me/coley/recaf/util/AutoCompleteUtil.java:104-105 | the index names that start with the fragment, exact matches included, in index order |
| Descriptors.DescriptorCompletions | src/main/java/me/coley/recaf/util/AutoCompleteUtil.java:76-109 | a rejected input gives an empty list; there are never more completions than index names |
| Descriptors.DescriptorMembers | src/main/java/me/coley/recaf/util/AutoCompleteUtil.java:104-107 | `prefix + n + ";"` is a completion exactly when `n` is an index name that starts with the fragment, exact matches included |
| Descriptors.DescriptorRoundTrip | src/main/java/me/coley/recaf/util/AutoCompleteUtil.java:102-108 | there is one completion per index name that starts with the fragment, in index order, and each is exactly `prefix + name + ";"`, so taking the prefix and the `;` off gives the name back |
| Descriptors.TokenExampleReference | src/main/java/me/coley/recaf/util/AutoCompleteUtil.java:80-100 | `La/B` gives prefix `L` and fragment `a/B` |
| Descriptors.TokenExampleArray | src/main/java/me/coley/recaf/util/AutoCompleteUtil.java:80-100 | `[[La/` gives prefix `[[L` and fragment `a/` |
| Descriptors.TokenExampleNoPrefix | src/main/java/me/coley/recaf/util/AutoCompleteUtil.java:98-100 | `a/B` is rejected |
| Descriptors.TokenExampleNoName | src/main/java/me/coley/recaf/util/AutoCompleteUtil.java:98-100 | `[[` is rejected |
| Descriptors.TokenExampleClosed | src/main/java/me/coley/recaf/util/AutoCompleteUtil.java:89-91 | `La/B;` is rejected |
| Descriptors.DescriptorExample | src/main/java/me/coley/recaf/util/AutoCompleteUtil.java:102-108 | `La/B` against index `a/Bar` completes to `La/Bar;` |
| Signatures.Signature | src/main/java/me/coley/recaf/util/AutoCompleteUtil.java:128-130 | a method's signature is its name followed by its descriptor; a field's is its name, a space and its type (lines 146-148) |
| Signatures.SignaturesOf | src/main/java/me/coley/recaf/util/AutoCompleteUtil.java:127-130 | one signature per declared member of the kind |
| Signatures.SignaturesOfMembers | src/main/java/me/coley/recaf/util/AutoCompleteUtil.java:145-148 | a string is a signature exactly when some member formats to it (`name + desc` for methods, `name + " " + type` for fields) |
| Signatures.DottedName | src/main/java/me/coley/recaf/util/AutoCompleteUtil.java:183 | the classpath name of an internal name: same length, no `/` left, every other char unchanged |
| Signatures.ResolveOwner | src/main/java/me/coley/recaf/util/AutoCompleteUtil.java:169-186 | a null owner resolves to nothing; a resolved owner comes from the workspace's readers or the classpath's classes |
| Signatures.WorkspaceTakesPrecedence | src/main/java/me/coley/recaf/util/AutoCompleteUtil.java:175-180 | a workspace reader for the trimmed owner is used, whatever the classpath holds |
| Signatures.RuntimeFallback | src/main/java/me/coley/recaf/util/AutoCompleteUtil.java:181-185 | with no workspace or no reader, the owner is looked up on the classpath by its dotted name, and is unresolved if absent |
| Signatures.MatchSignatures | src/main/java/me/coley/recaf/util/AutoCompleteUtil.java:187-194 | unresolved owner gives an empty list; otherwise a sorted list holding exactly the owner's signatures that start with the untrimmed part, with their multiplicity |
| Signatures.CompletionsAreSignatures | src/main/java/me/coley/recaf/util/AutoCompleteUtil.java:187-191 | every completion starts with the part and is the signature of a member of the resolved owner |
| Signatures.Method | src/main/java/me/coley/recaf/util/AutoCompleteUtil.java:123-131 | method completions are sorted and start with the part |
| Signatures.Field | src/main/java/me/coley/recaf/util/AutoCompleteUtil.java:143-149 | field completions are sorted and start with the part |
| Signatures.UnresolvedOwnerCompletesNothing | src/main/java/me/coley/recaf/util/AutoCompleteUtil.java:192-193 | no owner, or an owner neither source knows, gives no method or field completions |
| Signatures.WorkspaceShadowsRuntime | src/main/java/me/coley/recaf/util/AutoCompleteUtil.java:173-185 | when the workspace knows the owner, the completions do not depend on the classpath |
| Signatures.EmptyPartOffersAll | src/main/java/me/coley/recaf/util/AutoCompleteUtil.java:189 | an empty part offers every signature of the resolved owner |
| Signatures.ExampleMembers | src/main/java/me/coley/recaf/util/AutoCompleteUtil.java:129-130 | the example methods `z`, `a` with descriptor `()V`, declared in that order, format to `z()V`, `a()V` |
| Signatures.ExampleResolves | src/main/java/me/coley/recaf/util/AutoCompleteUtil.java:175-179 | a workspace whose class names and readers hold `a/B` resolves the owner `a/B` to that reader's members, whatever the classpath holds |
| Signatures.SortExample | src/main/java/me/coley/recaf/util/AutoCompleteUtil.java:187-191 | the owner `a/B` of that workspace, declaring `z()V` then `a()V`, completes on `""` to `a()V`, `z()V` |
| AutoComplete.AutoCompleteUtil.constructor | src/main/java/me/coley/recaf/util/AutoCompleteUtil.java:27 | the cache starts out empty (null) |
| AutoComplete.AutoCompleteUtil.ClassNames | src/main/java/me/coley/recaf/util/AutoCompleteUtil.java:32-47 | stores and returns the index: with a workspace, the strictly ascending union of both sources; without one, the system list unchanged |
| AutoComplete.AutoCompleteUtil.InternalName | src/main/java/me/coley/recaf/util/AutoCompleteUtil.java:59-66 | an empty part returns nothing and leaves the cache alone; otherwise rebuilds the index and returns InternalNameCompletions over it |
| AutoComplete.AutoCompleteUtil.DescriptorName | src/main/java/me/coley/recaf/util/AutoCompleteUtil.java:76-109 | a rejected input returns nothing and leaves the cache alone; otherwise rebuilds the index and returns DescriptorCompletions over it |

## Left out

- The global lookups `Recaf.getCurrentWorkspace()`, `Workspace.getClassNames`/`getClassReader` and `ClasspathUtil.getSystemClassNames`/`getSystemClassIfExists` are not called. They are the parameters `workspace` and `runtime`.
- ASM's `Type.getMethodDescriptor` and `Type.getType`, and `ClassUtil.getMethodDefs`/`getFieldDefs`, are not modelled. Each member's descriptor is given as data, from either source.
- `Parser.getById("owner").getValue()` is not modelled. The owner is an `Option<string>` argument.
- A null `part`, or a parser without an `owner` node, throws in Java. These cases are not modelled.
- Characters: Dafny's `char` is a Unicode scalar value, while Java's is a UTF-16 code unit. Strings with unpaired surrogates cannot be written. Natural order can differ from Java's for characters above U+FFFF.
- Strings.Trim: specified by what it strips (chars ≤ U+0020 at both ends), not by Java's index arithmetic.
- Streams.Distinct: states which elements remain and that none repeats, not that the first occurrence of each is kept in input order; every use is followed by a sort, which makes the order irrelevant.
- Streams.Sort: written as insertion sort instead of Java's merge sort. SortedUnique shows that any sort gives the same list.
- The enumeration order of the workspace's `Set` is left open (ElementsOf picks elements in any order). The index is proved not to depend on it.
- Synchronisation: the source has none, and the model is sequential.
- `Collections.unmodifiableList`, `ArrayList` capacity hints and stream laziness are not modelled. They do not change any result.
