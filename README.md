# driftctl core, modelled in Dafny

This project models three parts of driftctl, the tool that compares live cloud resources
with an infrastructure-as-code baseline.

- **Resources and their attributes** (`pkg/resource/resource.go`), in `resource.dfy`,
  `refactored.dfy` and `attrs.dfy`. Modelled:
  - an abstract resource and its identity by (type, id);
  - the stable sort of resource lists by (type, id);
  - the list of refactored resource types;
  - the attribute document `Attributes` (a `map[string]interface{}`), with `Get`,
    `SafeDelete`, `SafeSet`, `DeleteIfDefault`, `SanitizeDefaults` and `concatenatePath`.

  `*Attributes` methods rebind their receiver (`*a = m`) while they walk down a path. So the
  class `Attrs.Attributes` keeps two things:
  - the outermost document it has walked down from;
  - the keys it has descended through.

  A write through the receiver after such a walk is a write into the outer document at that
  place, as it is in Go, where the nested map is shared with the document holding it. That
  is the only sharing of maps the model captures (see Left out).
- **Dependency-lock decoding** (`pkg/remote/terraform/lockfile.go`), in `lockfile.dfy`:
  - the checks on each `provider` block: parsable, lockable and canonical address; present
    and normalized version;
  - the loop over blocks, where the first block for an address wins and later ones are
    reported as duplicates;
  - how `tfdiags` diagnostics become the returned error.

  The HCL parser, the provider-address library and the version library are not modelled
  themselves. Their results are parameters:
  - the parsed blocks, with their schema diagnostics, are data;
  - address parsing, `String`, `IsBuiltIn`, `IsLegacy` and version normalization are
    functions in `Lockfile.Libraries`.
- **The Google compute-network enumerator**
  (`pkg/remote/google/google_compute_network_enumerator.go`), in `google_network.dfy`:
  - the repository's answer and the resource factory are parameters;
  - `strings.Replace(name, prefix, "", 1)` is modelled exactly.

`common.dfy` holds `Option`, `Result` and `strings.Join`.

The model follows what the code does, also where the names suggest more:
- `SanitizeDefaults` keeps zero-valued scalars, despite its name; only nil values and empty
  slices and maps are dropped. One pass is not idempotent: a map emptied by the pass stays
  (`Attrs.SanitizeNotIdempotent`).
- `SafeSet` does not create missing intermediate maps, although it inserts one before failing
  on it (see Findings). Its `"Error setting value"` return, marked `// should not happen ?` in
  the code, happens exactly for the empty path (`Attrs.SetInWalk`).
- `SafeDelete` removes only the leaf. It never removes ancestors left empty.

## Model

| member | source | states |
|---|---|---|
| Common.Join | pkg/resource/resource.go:224 | `strings.Join` gives the empty string on no parts and the part itself on one |
| Common.JoinSnoc | pkg/resource/resource.go:224 | joining one more part appends the separator and that part |
| Attrs.IsZero | pkg/resource/resource.go:234 | (definition) the zero values of the scalar types: `false`, `0` and `""`; used by `DeleteIfDefault` |
| Attrs.Message | pkg/resource/resource.go:224-228 | (definition) the texts of SafeSet's two errors: "Error setting value", and "Path p cannot be set: k is not a nested struct" with the path joined by dots |
| Attrs.Replace | pkg/resource/resource.go:201-205 | writing a sub-document through a map reference reached by a walk leaves that sub-document at the walked place; at every level the key walked through stays an `Attributes` value, and every other entry keeps its value |
| Attrs.SetIn | pkg/resource/resource.go:209-229 | (definition) SafeSet's loop on the map the receiver denotes: the new map, the keys descended through and the error; its meaning is stated by the SetIn lemmas below |
| Attrs.SetInWalk | pkg/resource/resource.go:209-229 | SafeSet's walk descends only through `Attributes` values along a prefix of the path; it succeeds exactly when it reaches the last segment, and fails with "Error setting value" exactly when the path is empty, changing nothing |
| Attrs.SetInSuccess | pkg/resource/resource.go:210-213 | on success the only change is the last segment set to the value in the map reached |
| Attrs.SetInFailure | pkg/resource/resource.go:216-225 | on a "not a nested struct" failure the segment named is not an `Attributes` value, and the only change is the empty plain map inserted when that segment was missing |
| Attrs.SetSucceedsIff | pkg/resource/resource.go:209-229 | SafeSet succeeds iff the path is non-empty and every segment before the last already names an `Attributes` value |
| Attrs.SetCannotCreateIntermediate | pkg/resource/resource.go:216-225 | as written, a missing first segment of a longer path gets an empty plain map and SafeSet fails on it |
| Attrs.SetNestedOnEmptyFails | pkg/resource/resource.go:216-225 | setting `a.b` on an empty document fails with "a is not a nested struct" and leaves `a` as an empty map |
| Attrs.DeleteIn | pkg/resource/resource.go:190-207 | (definition) SafeDelete's loop on the map the receiver denotes: the new map and the keys descended through; its meaning is stated by the two lemmas below |
| Attrs.DeleteInEffect | pkg/resource/resource.go:190-207 | SafeDelete removes exactly the last key from the map reached when the walk gets there; otherwise the document is unchanged |
| Attrs.DeleteChangesIff | pkg/resource/resource.go:190-207 | SafeDelete changes the document iff the prefix names nested `Attributes` and the last key is present there |
| Attrs.SetPath | pkg/resource/resource.go:209-229 | corrected SafeSet: succeeds iff no prefix segment names a non-map value; afterwards the path holds the value, the top-level keys gain only the first segment, and the other entries are unchanged |
| Attrs.SetPathFrame | pkg/resource/resource.go:209-229 | corrected SafeSet changes nothing off its path: any path that parts ways with the set path looks up the same value before and after, at any depth |
| Attrs.SetPathCreatesIntermediate | pkg/resource/resource.go:216-222 | the corrected set reaches through a missing intermediate map |
| Attrs.ConcatenatePath | pkg/resource/resource.go:239-244 | a key below the root path is the key itself; below any other path it is the path, a dot, then the key |
| Attrs.PathOfAppends | pkg/resource/resource.go:239-244 | descending from a non-empty path through a sequence of keys appends them separated by dots |
| Attrs.PathOfIsJoin | pkg/resource/resource.go:239-244 | the path built from the root is the keys joined with dots when the first key is not empty |
| Attrs.SanitizeValue | pkg/resource/resource.go:253-304 | sanitize keeps the kind of each value and the length of each slice; a slice element that is nil, an empty slice or an empty map becomes nil, and every other element is sanitized in place; a map keeps exactly its entries that are not nil, empty slices or empty maps, each sanitized; scalars are copied unchanged |
| Attrs.SanitizeDoc | pkg/resource/resource.go:246-251 | the sanitized document keeps exactly the non-droppable top-level keys, each sanitized, and every scalar entry unchanged, zero scalars included |
| Attrs.SanitizeFixpointIff | pkg/resource/resource.go:253-304 | a value is left unchanged by sanitize iff no map at any depth holds a droppable entry and no slice holds an empty slice or map |
| Attrs.SanitizeRemovesNilAndEmptySlices | pkg/resource/resource.go:253-304 | after sanitize, no map entry below the top is nil or an empty slice, and no slice element is an empty slice |
| Attrs.SanitizeNotIdempotent | pkg/resource/resource.go:246-304 | a map whose entries are all nil survives one pass as an empty map and goes only on the second pass; a zero number survives both |
| Attrs.Attributes.constructor | pkg/resource/resource.go:183 | a fresh receiver denotes the given document |
| Attrs.Attributes.Get | pkg/resource/resource.go:185-188 | the flag is true iff the literal key is present, and then the value is its entry; otherwise nil |
| Attrs.Attributes.SafeDelete | pkg/resource/resource.go:190-207 | the outer document and the receiver's new position are those the delete walk gives |
| Attrs.Attributes.SafeSet | pkg/resource/resource.go:209-229 | the outer document, the receiver's new position and the error are those the set walk gives |
| Attrs.Attributes.DeleteIfDefault | pkg/resource/resource.go:231-237 | the top-level entry is removed iff it is present and holds its type's zero value; the receiver stays where it was |
| Attrs.Attributes.SanitizeDefaults | pkg/resource/resource.go:246-251 | the receiver is rebound to a fresh sanitized copy of the map it denotes |
| Refactored.IsRefactoredResource | pkg/resource/resource.go:21-89 | true iff the type is one of the 49 listed refactored types |
| Refactored.LambdaEventSourceMappingNotRefactored | pkg/resource/resource.go:50 | `aws_lambda_event_source_mapping`, commented out, is not refactored |
| Refactored.LambdaFunctionNotRefactored | pkg/resource/resource.go:51 | `aws_lambda_function` is not refactored |
| Refactored.SecurityGroupNotRefactored | pkg/resource/resource.go:65 | `aws_security_group` is not refactored |
| Refactored.SecurityGroupRuleNotRefactored | pkg/resource/resource.go:66 | `aws_security_group_rule` is not refactored |
| Refactored.SqsQueueNotRefactored | pkg/resource/resource.go:70 | `aws_sqs_queue` is not refactored |
| Refactored.SqsQueuePolicyNotRefactored | pkg/resource/resource.go:71 | `aws_sqs_queue_policy` is not refactored |
| Refactored.SubnetNotRefactored | pkg/resource/resource.go:72 | `aws_subnet` is not refactored |
| Refactored.VpcNotRefactored | pkg/resource/resource.go:73 | `aws_vpc` is not refactored |
| Resource.AbstractResource.TerraformId | pkg/resource/resource.go:97-99 | (definition) the getter returns the resource's id |
| Resource.AbstractResource.TerraformType | pkg/resource/resource.go:101-103 | (definition) the getter returns the resource's type |
| Resource.IsSameResource | pkg/resource/resource.go:154-156 | (definition) same type and same id; `Resource.SameResourceIffTied` relates it to the sort order |
| Resource.StrLess | pkg/resource/resource.go:160-163 | (definition) Go's `<` on strings, lexicographic with a proper prefix first; the four lemmas below make it a strict total order |
| Resource.Less | pkg/resource/resource.go:159-164 | (definition) the comparator handed to `sort.SliceStable`: by type, then by id; a strict weak order by the lemmas below |
| Resource.InsertionSort | pkg/resource/resource.go:158-166 | (definition) a stable sort by `Less`; `SortedBySort`, `SortPermutes` and `SortIsStable` state that it orders, permutes and keeps ties in order, which fixes the result `sort.SliceStable` must give |
| Resource.StrLessIrreflexive | pkg/resource/resource.go:160-163 | no string is less than itself under Go's string `<` |
| Resource.StrLessTransitive | pkg/resource/resource.go:160-163 | string `<` is transitive |
| Resource.StrLessTotal | pkg/resource/resource.go:160-163 | any two distinct strings are ordered one way or the other |
| Resource.StrLessAsymmetric | pkg/resource/resource.go:160-163 | string `<` is asymmetric |
| Resource.LessTransitive | pkg/resource/resource.go:159-164 | the (type, id) order is transitive |
| Resource.LessAsymmetric | pkg/resource/resource.go:159-164 | the (type, id) order is asymmetric |
| Resource.NotLessTransitive | pkg/resource/resource.go:159-164 | not-less is transitive, so the order is a strict weak order as `sort.SliceStable` needs |
| Resource.SameResourceIffTied | pkg/resource/resource.go:154-156 | `IsSameResource` holds iff neither resource sorts before the other |
| Resource.InsertPermutes | pkg/resource/resource.go:158-166 | one insertion step adds exactly the inserted element |
| Resource.InsertSorted | pkg/resource/resource.go:158-166 | inserting into an ordered list keeps it ordered |
| Resource.InsertStable | pkg/resource/resource.go:158-166 | insertion keeps the relative order of the resources with any given (type, id), the inserted one going last |
| Resource.SortedBySort | pkg/resource/resource.go:158-166 | the sorted list is ordered by (type, id) |
| Resource.SortPermutes | pkg/resource/resource.go:158-166 | the sorted list is a permutation of the input |
| Resource.SortIsStable | pkg/resource/resource.go:158-166 | the resources with any given (type, id) keep their relative order |
| Resource.InsertInto | pkg/resource/resource.go:158-166 | one in-place insertion pass over the array gives the insertion of `res[i]` into the sorted prefix and leaves the rest untouched |
| Resource.Sort | pkg/resource/resource.go:158-166 | sorts the array in place into the stable (type, id) order and returns the same array |
| Lockfile.Err | pkg/remote/terraform/lockfile.go:122 | `diags.Err()` is nil iff there is no error-severity diagnostic, and otherwise carries every diagnostic |
| Lockfile.ProviderIsLockable | pkg/remote/terraform/lockfile.go:51-53 | (definition) a provider is lockable iff it is neither built in nor legacy |
| Lockfile.DecodeProviderVersionArgument | pkg/remote/terraform/lockfile.go:179-223 | no argument gives no version and no diagnostics; a present argument without a version gives an error; a returned version is the normalization of a decoded, non-null string, with an error iff that differs from the string as written |
| Lockfile.RejectionMessage | pkg/remote/terraform/lockfile.go:129-157 | (definition) the message for a refused address, in the order the source checks: unparsable, built in, otherwise not lockable, not canonical |
| Lockfile.DecodeProviderLock | pkg/remote/terraform/lockfile.go:125-177 | the block yields a lock iff its address parses, is lockable and is written canonically; a rejection is exactly one error; a lock carries the parsed address and no constraints or hashes |
| Lockfile.UnparsableAddressRejected | pkg/remote/terraform/lockfile.go:129-139 | an unparsable address is rejected with the fixed "hostname/namespace/type" message |
| Lockfile.UnlockableAddressRejected | pkg/remote/terraform/lockfile.go:140-148 | a built-in provider gets the built-in message; another non-lockable one gets the "special provider" message |
| Lockfile.NonCanonicalAddressRejected | pkg/remote/terraform/lockfile.go:149-157 | a lockable address not written canonically is rejected with a message quoting the canonical form |
| Lockfile.MissingVersionKeptWithError | pkg/remote/terraform/lockfile.go:161-202 | a block whose version is missing or null is still locked, with an empty version, and the schema's or the decoder's "Missing required argument" error is reported |
| Lockfile.NonNormalizedVersionReported | pkg/remote/terraform/lockfile.go:212-221 | a non-normalized version is stored normalized, with an error quoting the normalized form |
| Lockfile.WellFormedDecodes | pkg/remote/terraform/lockfile.go:125-177 | a well-formed block gives its lock with the version as written, and no diagnostics |
| Lockfile.Step | pkg/remote/terraform/lockfile.go:95-120 | (definition) one iteration of the block loop: a rejected block adds only its diagnostics; a lock for a seen address adds the duplicate error; otherwise the lock is stored and its range remembered |
| Lockfile.DecodeAll | pkg/remote/terraform/lockfile.go:94-120 | (definition) the loop's state after the blocks in order; the lemmas below state what it stores and reports |
| Lockfile.FirstBlockWins | pkg/remote/terraform/lockfile.go:94-114 | an address is seen iff some block decodes to a lock for it; the lock stored and the range remembered are the first such block's |
| Lockfile.DiagsAccumulate | pkg/remote/terraform/lockfile.go:92-122 | the diagnostics after a prefix of the blocks are a prefix of the final diagnostics |
| Lockfile.DuplicateReported | pkg/remote/terraform/lockfile.go:104-112 | a later block for an already locked address adds a "Duplicate provider lock" error naming the address and the first block's range |
| Lockfile.WellFormedBlocksAllStored | pkg/remote/terraform/lockfile.go:94-120 | well-formed blocks with distinct addresses give one lock per block and add no diagnostics |
| Lockfile.NewAddressNotSeen | pkg/remote/terraform/lockfile.go:104-114 | a well-formed block whose label no earlier well-formed block has is for an address not seen yet |
| Lockfile.WellFormedBlocksStoredAsWritten | pkg/remote/terraform/lockfile.go:94-120 | well-formed blocks with distinct addresses: each block's lock, with the version it gives, is stored under its address |
| Lockfile.Locks.constructor | pkg/remote/terraform/lockfile.go:32-38 | a new lock set holds no locks |
| Lockfile.Locks.Provider | pkg/remote/terraform/lockfile.go:40-44 | the stored lock for the address, or nil iff it has none |
| Lockfile.Locks.DecodeLocksFromHCL | pkg/remote/terraform/lockfile.go:81-123 | the loop stores what the block-by-block decoding stores, and returns the error its diagnostics make |
| Lockfile.Load | pkg/remote/terraform/lockfile.go:61-79 | (definition) what `loadLocks` returns; `Lockfile.LoadLocks` computes it, and the lemmas below state its cases |
| Lockfile.LoadLocks | pkg/remote/terraform/lockfile.go:61-79 | a fresh lock set; without a file the parser's error, otherwise the decoded locks and the error of the parser's and the decoder's diagnostics together |
| Lockfile.NoFileNoLocks | pkg/remote/terraform/lockfile.go:69-74 | without a file there are no locks, and the error is the one the parser's diagnostics make: present iff the parser reported an error, and then carrying all its diagnostics |
| Lockfile.EmptyDocumentNoLocks | pkg/remote/terraform/lockfile_test.go:43-52 | an empty document gives no locks and no error |
| Lockfile.WellFormedDocumentLoads | pkg/remote/terraform/lockfile_test.go:16-29 | a clean document of N well-formed blocks with distinct addresses gives N locks, each block's address locked at the version it gives, and no error |
| Lockfile.NonCanonicalBesideCleanBlock | pkg/remote/terraform/lockfile_test.go:64-74 | a non-canonical block beside a well-formed one, in either order, gives exactly the well-formed block's lock and a single error whose text is the canonical-form message |
| Lockfile.MissingVersionOnlyBlock | pkg/remote/terraform/lockfile_test.go:53-63 | a block missing its version alone gives one lock with an empty version, and the schema's "Missing required argument" as the only error |
| GoogleNetwork.Enumerator.SupportedType | pkg/remote/google/google_compute_network_enumerator.go:24-26 | the enumerator lists `google_compute_network` |
| GoogleNetwork.Index | pkg/remote/google/google_compute_network_enumerator.go:41 | `strings.Index`: -1 or an occurrence, with no occurrence earlier |
| GoogleNetwork.RemoveFirst | pkg/remote/google/google_compute_network_enumerator.go:41 | removing the first occurrence leaves a string without a match unchanged; otherwise it is shorter by the match, and putting the match back where it was first found gives the string again |
| GoogleNetwork.RemoveFirstInverse | pkg/remote/google/google_compute_network_enumerator.go:41 | removing the first occurrence undoes inserting it after a part that does not contain it |
| GoogleNetwork.NetworkIdFromAssetName | pkg/remote/google/google_compute_network_enumerator.go:41 | the id is the asset name itself when it holds no `//compute.googleapis.com/`; otherwise the prefix put back at its first occurrence, before which it does not occur, gives the name |
| GoogleNetwork.Network | pkg/remote/google/google_compute_network_enumerator.go:39-45 | (definition) the factory called with the supported type, the trimmed name and the display name as the only attribute; `GoogleNetwork.NetworksDescribeAssets` states the result |
| GoogleNetwork.Networks | pkg/remote/google/google_compute_network_enumerator.go:36-47 | one created resource per asset, in repository order |
| GoogleNetwork.Nils | pkg/remote/google/google_compute_network_enumerator.go:34 | `make` of length n holds n nil entries |
| GoogleNetwork.Enumerate | pkg/remote/google/google_compute_network_enumerator.go:28-50 | a repository error gives no list and a listing error for `google_compute_network`; otherwise n nils followed by the n created resources |
| GoogleNetwork.EnumeratedShape | pkg/remote/google/google_compute_network_enumerator.go:34-47 | as written the list has twice as many entries as assets, the first half nil |
| GoogleNetwork.OneAssetGivesLeadingNil | pkg/remote/google/google_compute_network_enumerator.go:34-47 | a single asset gives a nil and then its network |
| GoogleNetwork.EnumerateIntended | pkg/remote/google/google_compute_network_enumerator.go:28-50 | corrected: the same error case; on success exactly the created resources, in order |
| GoogleNetwork.NetworksDescribeAssets | pkg/remote/google/google_compute_network_enumerator.go:36-47 | with a factory that keeps its arguments, each resource is a `google_compute_network` whose id is the trimmed asset name and whose only attribute is the display name |

## Left out

- JSON and cty: `ToResourceAttributes`, `CtyValue` and the `SerializableResource` JSON marshalling are not modelled, because they call into the cty and JSON libraries.
- Numbers: JSON numbers are kept as exact reals, so float64 rounding is not modelled.
- Attrs.SanitizeValue: the pointer and struct branches of sanitize are not modelled. Unmarshalled JSON documents never contain pointers or structs.
- Attrs.SanitizeValue: the `path` that sanitize threads through its calls is never used by it, so the model does not thread it. `concatenatePath` is modelled on its own (`Attrs.ConcatenatePath`).
- Attrs.Attributes.DeleteIfDefault: comparing a slice or map with `==` panics in Go. The model therefore requires the entry, when present, to be a scalar; a nil entry makes `reflect.Zero(nil)` panic and is excluded too.
- Attrs.Value: a nil slice and an empty slice are the same value here, and so are a nil map and an empty map.
- Attrs.Attributes.SafeSet: writing into a nil map panics in Go (resource.go:212 and 218 on a nil receiver, or after descending into an `Attributes(nil)` value). The model treats a nil map as an empty one, so there it succeeds instead of panicking.
- Attrs.Attributes: maps are shared only along the receiver's walk. A map the caller passes to `SafeSet` and later mutates, or one map stored under two keys, is a copy in the model, so changes through the other reference are not seen.
- Lockfile.DecodeProviderVersionArgument: when the version string does not parse, the source dereferences a nil version and panics. The model requires that strings that are reached do parse (`Lockfile.VersionParses`). The "Invalid provider version number" diagnostic of that path is therefore not modelled.
- Lockfile: the HCL parser, the schema checks of `Body.Content` and `gohcl.DecodeExpression` are modelled only by their diagnostics, given as data; the one diagnostic spelled out is the missing-`version` one.
- Lockfile: source ranges are strings as printed. Block subjects and other diagnostic ranges are not modelled.
- Lockfile: `%s` and `%q` formatting is plain concatenation with quotes; Go's escaping inside `%q` is not modelled.
- Lockfile.Err: the text of an error holding several diagnostics is not modelled. `Lockfile.ErrorText` gives only the text of a single diagnostic.
- Lockfile.MissingVersionOnlyBlock: states that the error is the schema's missing-`version` diagnostic, not the literal text of that error.
- Lockfile: `LoadLocksFromFile` only supplies a file name to `loadLocks`, so file reading is the `ParseResult` parameter of `Lockfile.LoadLocks`.
- GoogleNetwork: the asset repository and the resource factory are parameters. Their own behaviour, caching and network calls are not part of this model, and neither is the constructor `NewGoogleComputeNetworkEnumerator`.
- GoogleNetwork.RemoveFirst: only a non-empty string to remove is modelled; the enumerator always removes `//compute.googleapis.com/`.
- Concurrency: not modelled. The lock set is documented as unsafe for concurrent writes, and nothing here is concurrent.

## Findings

| source | as written | input that shows it | evidently intended | confidence | as-written member | corrected member |
|---|---|---|---|---|---|---|
| pkg/resource/resource.go:216-225 | a missing intermediate key gets a plain `map[string]interface{}`, and the assertion to `Attributes` then fails | SafeSet(["a","b"], "x") on an empty document returns "Path a.b cannot be set: a is not a nested struct" | missing intermediate maps are created and walked into, so the value is set | not executed | Attrs.SetCannotCreateIntermediate, Attrs.SetNestedOnEmptyFails | Attrs.SetPath, Attrs.SetPathCreatesIntermediate |
| pkg/remote/google/google_compute_network_enumerator.go:34-47 | the result slice is made with length `len(resources)`, then the resources are appended after it | one network asset gives `[nil, network]` | a slice of length 0 (capacity `len(resources)`), giving exactly the networks | not executed | GoogleNetwork.Enumerate, GoogleNetwork.OneAssetGivesLeadingNil | GoogleNetwork.EnumerateIntended |
