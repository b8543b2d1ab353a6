# Decidim REST Full: verified model

A Dafny model of the parts of Decidim REST Full that compute something or keep state, with proofs
of what they promise. `dafny verify dfyconfig.toml` checks everything.

| files | what they model |
|---|---|
| `Text`, `Utf8`, `Base64Url`, `Json`, `JsonText`, `JsonDocuments`, `RoleIdCodec` | composite role ids: JSON text, its UTF-8 bytes, and base64url, with a nested JSON reader on the way back |
| `RoleTables`, `RolesWriter`, `RolesStore` | roles spread over users and four tables: create, the two lookups, destroy, and the aggregate |
| `Presence`, `ExtendedData`, `ExtendedDataStore` | extended data: merge at a dot path, recursive compaction, read at a dot path, and the stored row |
| `StringPaths`, `DocumentedMerge` | the same update on paths that lead into strings, and against the recursive merge its documentation describes |
| `Pagination`, `BlogOrder` | offset pages, and the next/prev chain over the sorted blog posts |
| `ApiJobPayload`, `ApiJobs`, `ApiJobRuns`, `ApiJobStore` | async jobs: the persisted request, the protocol of enqueue, perform and destroy, what whole runs of it do, and the worker |
| `DraftProposals`, `DraftStore` | draft proposals: one draft per component, the publication limit, collapsed translations |
| `HostChange` | a requested host, held as pending and promoted once DNS agrees |
| `Fingerprint`, `LastModified` | ETags and Last-Modified of a single resource |
| `RouteRegistry`, `Webhooks`, `Translations` | route blocks, webhook fan-out, translated organization columns |

State that Ruby changes in place is a class; its methods are proved equal to functions on a snapshot of
the fields, and the lemmas about whole runs are about those functions. Tables are sets, maps or
sequences. A transaction either commits or leaves nothing.

## Where the code does not do what one expects

Each of these has a lemma with a failing input and a lemma with the exact condition.

- Destroying a role in a process may remove the user's other role there, because the lookup ignores the
  role (`RolesWriter.TwoRolesInOneProcess`). Looking up a private member ignores the organization of the assembly
  (`RolesWriter.MemberOfForeignAssembly`). `RolesWriter.DestroyIsPlainIffExact` covers both.
- An update whose path leads into a string replaces text inside that string and does not read back
  (`StringPaths.PutGetIffHashPath`, `StringPaths.PutGetFailsInsideText`).
- Updates at paths that do not meet commute, except where text goes into a string that is blank so far
  (`StringPaths.UpdatesCommuteIff`, `StringPaths.BlankTextDoesNotLast`) or both go into one string
  (`StringPaths.OneStringDoesNotCommute`). There they commute when the texts they replace lie apart and neither
  leaves the string blank (`StringPaths.ApartInOneStringCommutes`); elsewhere it takes a coincidence of
  texts, which `StringPaths.CommuteInOneStringIff` spells out.
- The API documentation promises a recursive merge that removes no existing key; the code merges one level, at
  the path (`DocumentedMerge.UpdateIsRecursiveIffRepeated`, `DocumentedMerge.UpdateDropsNestedKey`).
- The `first` link of a post is the smallest id, not the head of the order, so the walk from it can miss
  posts (`BlogOrder.FirstLinkCoversIffHead`, `BlogOrder.FirstLinkMissesNewest`).
- A delivery leaves its job open exactly when the payload no longer fits a lowered cap: in processing, or pending
  when the token is refused (`ApiJobs.RunOnRows`, `ApiJobRuns.OversizeStaysProcessing`,
  `ApiJobRuns.OversizeStaysPending`).
- A job runs as often as it is delivered, so a redelivered one runs again (`ApiJobRuns.DeliveriesConserved`,
  `ApiJobRuns.RedeliveryRunsAgain`, `ApiJobRuns.RedeliveryCountsTwice`).
- Naming another space when creating a draft hides the existing one
  (`DraftProposals.OneDraftIffSpaceMatches`, `DraftProposals.SecondDraft`).
- An extended-data update may put an organization's current host under the pending key without a check, and then
  every sync of it fails (`HostChange.StepKeepsInvIff`, `HostChange.RunKeepsInvIff`,
  `HostChange.CurrentHostWritten`).
- An append of routes that raises can stop short, and the next append draws more
  (`RouteRegistry.AppendIdempotentIff`, `RouteRegistry.AppendAfterRaise`).
- A second row for one permission enqueues its registrations twice; the unique index is what rules it out
  (`Webhooks.ExactlyOnceIffUnique`, `Webhooks.DuplicatePermissionDeliversTwice`).
- Machine translations in a payload are dropped by the merge and stored by the restore; a restore without
  them drops those Decidim left (`Translations.MachineKeptIff`, `Translations.CommandsStandIff`,
  `Translations.SubmittedMachineStored`, `Translations.RestoreLosesMachine`).

## Assumptions

- Text is Unicode text. `JSON.generate` raises on bytes that are no UTF-8.
- Decidim's own validations, DNS answers, command handlers and form validity are parameters of the operations.
- Whether the organization record accepts a promoted host (`saved`) is Decidim's own validation, not part of this
  model. The command itself does not check again that a host is free, so distinct hosts rest on that validation:
  they stay distinct in a run exactly when it refuses each host that is taken (`HostChange.DistinctHostsIffFree`,
  `HostChange.RunKeepsHostsDistinctIff`); `HostChange.TwoPromotionsOneHost` is the run it has to refuse.
- A pending host is text, also when an extended-data update writes it.
- A command sees its owner's context, its key, its parameters, the database, and one number that stands for clock
  and randomness. Between its steps the configuration (applications and payload cap) may change freely.
- Role tables hold one row per (space, user, role), as Decidim validates; a duplicate is refused as invalid.
- A job's token belongs to the application stored on the job. Deliveries of one job are not concurrent, while
  destroys and deliveries of other jobs interleave freely.
- SHA-256 is taken as injective, and times are whole microseconds between 1970 and 2242, where Ruby's float
  text is the exact decimal.
- Every route block draws at least one API route, and the core block is set once.

## Model

| member | source | states |
|---|---|---|
| Base64Url.UrlsafeRoundTrip | decidim-restfull-core/lib/decidim/rest_full/core/roles/role_id_codec.rb:21-25 | decoding the unpadded URL-safe encoding of any bytes gives them back; the text has only characters of section 5 of RFC 4648 and the unpadded length |
| Base64Url.UrlsafeCanonical | decidim-restfull-core/lib/decidim/rest_full/core/roles/role_id_codec.rb:25 | an unpadded URL-safe text that decodes is the encoding of what it decodes to, so no two such texts name the same bytes |
| Base64Url.PaddedDecodes | decidim-restfull-core/lib/decidim/rest_full/core/roles/role_id_codec.rb:25 | a text with the right padding decodes like the unpadded one, and one that ends in a padding mark at a wrong length does not decode |
| Utf8.DecodeEncode | decidim-restfull-core/lib/decidim/rest_full/core/roles/role_id_codec.rb:21-26 | every Unicode text survives its UTF-8 bytes |
| Utf8.EncodeDecode | decidim-restfull-core/lib/decidim/rest_full/core/roles/role_id_codec.rb:25-26 | bytes that decode are the encoding of what they decode to, so there are no overlong forms |
| JsonText.ReadEscaped | decidim-restfull-core/lib/decidim/rest_full/core/roles/role_id_codec.rb:21-26 | reading an escaped string gives the string back and stops at its own quotation mark, whatever follows (section 7 of RFC 8259) |
| JsonText.ParseGenerate | decidim-restfull-core/lib/decidim/rest_full/core/roles/role_id_codec.rb:21-26 | parsing a generated flat object gives the hash its members build |
| JsonDocuments.ParseDocument | decidim-restfull-core/lib/decidim/rest_full/core/roles/role_id_codec.rb:26 | every JSON document with integers for numbers, nested and with white space wherever it is allowed, parses to its value up to a hundred levels deep, and deeper ones do not parse |
| JsonDocuments.ReadOtherEscapes | decidim-restfull-core/lib/decidim/rest_full/core/roles/role_id_codec.rb:26 | a solidus, any code in hexadecimal and any surrogate pair read as the character they stand for (section 7 of RFC 8259) |
| JsonDocuments.ReaderRefuses | decidim-restfull-core/lib/decidim/rest_full/core/roles/role_id_codec.rb:26 | raw control characters, half surrogate pairs and leading zeros do not read, and neither, in the model, do fractions and exponents |
| RoleIdCodec.DecodeEncode | decidim-restfull-core/lib/decidim/rest_full/core/roles/role_id_codec.rb:13-44 | decoding an encoded id returns the normalised tuple, for any strings, any integers, any user and any invitation |
| RoleIdCodec.NormalizedInvitation | decidim-restfull-core/lib/decidim/rest_full/core/roles/role_id_codec.rb:39-44 | the tuple that comes back has a time as its ISO 8601 text, a string that is not blank as it is, and nil for anything else |
| RoleIdCodec.TextReadsAsInt | decidim-restfull-core/lib/decidim/rest_full/core/roles/role_id_codec.rb:24-34 | an integer in text is read behind white space and a sign, whatever comes after it |
| RoleIdCodec.DecodedObject | decidim-restfull-core/lib/decidim/rest_full/core/roles/role_id_codec.rb:24-36 | what each JSON value decodes to: objects field by field with missing keys as nil, arrays and text to nothing, and the rest to an error |
| RoleIdCodec.DecodedIdIsItsText | decidim-restfull-core/lib/decidim/rest_full/core/roles/role_id_codec.rb:24-36 | any unpadded URL-safe id that decodes is the encoding of one JSON text, an object |
| RoleIdCodec.EncodeUrlSafe | decidim-restfull-core/lib/decidim/rest_full/core/roles/role_id_codec.rb:13-22 | every id is URL-safe text without padding |
| RoleIdCodec.EncodeInjective | decidim-restfull-core/lib/decidim/rest_full/core/roles/role_id_codec.rb:13-44 | two tuples share an id exactly when they normalise to the same tuple |
| RoleTables.ViewsArePlainSet | decidim-restfull-core/lib/decidim/rest_full/core/roles/roles_aggregator.rb:30-38 | the aggregate over all tables has a view for each tuple that holds in the tables, and no other |
| RoleTables.ListedRoles | decidim-restfull-core/lib/decidim/rest_full/core/roles/roles_aggregator.rb:30-198 | the aggregate lists exactly the organization's administrators, the role rows of its spaces under their API names, and the members of its assemblies, with the invitations they carry |
| RoleTables.Vocabulary | decidim-restfull-core/lib/decidim/rest_full/core/roles/roles_writer.rb:58-68 | the five types and four resource types are known by these names, and no others |
| RoleTables.ViewedIsHeld | decidim-restfull-core/lib/decidim/rest_full/core/roles/roles_aggregator.rb:49-77 | a view is determined by its tuple |
| RolesWriter.CreateKeepsTables | decidim-restfull-core/lib/decidim/rest_full/core/roles/roles_writer.rb:58-68 | a create keeps the tables well-formed, and a failing one stores nothing |
| RolesWriter.CreateAdds | decidim-restfull-core/lib/decidim/rest_full/core/roles/roles_writer.rb:58-68 | a successful create adds exactly the requested (type, resource, user) to the plain set and returns its view |
| RolesWriter.CreateSucceedsIff | decidim-restfull-core/lib/decidim/rest_full/core/roles/roles_writer.rb:103-193 | a create succeeds exactly when its names are known, its resource (and looked-up user) is the organization's, Decidim accepts it, and the tuple is new or makes an administrator |
| RolesWriter.CreateErrors | decidim-restfull-core/lib/decidim/rest_full/core/roles/roles_writer.rb:58-193 | which error a failing create raises: wrong names or resources, then a missing space or user, then a refused row |
| RolesWriter.FindByIdFindsView | decidim-restfull-core/lib/decidim/rest_full/core/roles/roles_aggregator.rb:44-47 | the aggregator's lookup on the id of a role finds that role and no other |
| RolesWriter.FoundViews | decidim-restfull-core/lib/decidim/rest_full/core/roles/roles_aggregator.rb:187-198 | for any id the aggregator finds exactly the roles that agree with it in every field, a blank invitation standing for none |
| RolesWriter.RecordsThroughId | decidim-restfull-core/lib/decidim/rest_full/core/roles/roles_writer.rb:83-93 | the writer's lookup on a role's id sees the same rows as a lookup on the tuple itself |
| RolesWriter.FoundRecords | decidim-restfull-core/lib/decidim/rest_full/core/roles/roles_writer.rb:83-93 | which records a decoded id finds, table by table: administrators need the organization and the flag, process rows any role, members any organization |
| RolesWriter.ViewIsFound | decidim-restfull-core/lib/decidim/rest_full/core/roles/roles_writer.rb:70-93 | both lookups on the id of a role find it, and an exact destroy takes only it from the set |
| RolesWriter.CreatedIsFound | decidim-restfull-core/lib/decidim/rest_full/core/roles/roles_writer.rb:58-93 | both lookups on the id a create returns find the new role |
| RolesWriter.DestroyIsPlainIffExact | decidim-restfull-core/lib/decidim/rest_full/core/roles/roles_writer.rb:212-265 | destroying by id removes exactly the tuple, and fails exactly when it is absent, if and only if the process rows of that user all carry that role and the assembly of a member is the organization's own |
| RolesWriter.TwoRolesInOneProcess | decidim-restfull-core/lib/decidim/rest_full/core/roles/roles_writer.rb:212-219 | a user with two roles in one process is an input for which destroy is not exact |
| RolesWriter.MemberOfForeignAssembly | decidim-restfull-core/lib/decidim/rest_full/core/roles/roles_writer.rb:236-257 | an id for another organization's assembly is an input for which destroy is not exact |
| RolesWriter.StepIsPlain | decidim-restfull-core/lib/decidim/rest_full/core/roles/roles_writer.rb:58-81 | each request does to the tables what it does to a plain set |
| RolesWriter.RunIsPlainSet | decidim-restfull-core/lib/decidim/rest_full/core/roles/roles_writer.rb:58-93 | over every run of creates and exact destroys the aggregate is a plain set, and the id of a role never changes |
| RolesStore.RoleDatabase.Create | decidim-restfull-core/lib/decidim/rest_full/core/roles/roles_writer.rb:58-193 | the method on the tables has the outcome and the new tables of the specified create |
| RolesStore.RoleDatabase.Destroy | decidim-restfull-core/lib/decidim/rest_full/core/roles/roles_writer.rb:70-81 | the method removes one of the found records and nothing else, or fails and changes nothing |
| RolesStore.RoleDatabase.Call | decidim-restfull-core/lib/decidim/rest_full/core/roles/roles_aggregator.rb:30-38 | the concatenated list holds every role exactly once |
| ExtendedData.SegmentsJoin | decidim-restfull-core/lib/decidim/rest_full/core/extended_data_at_path.rb:10-18 | every sequence of dotless segments with a non-empty end is addressed by its dot path |
| ExtendedData.TrailingDot | decidim-restfull-core/lib/decidim/rest_full/core/extended_data_at_path.rb:10-18 | a dot at the end of a path changes nothing |
| ExtendedData.CompactFixesNoBlanks | decidim-restfull-core/app/services/decidim/rest_full/core/api_system_operations.rb:471-478 | compaction leaves a tree alone exactly when no hash entry at any depth is blank |
| ExtendedData.StoredEntries | decidim-restfull-core/app/services/decidim/rest_full/core/api_system_operations.rb:471-478 | an entry is stored unchanged when it is a number, true, a non-empty array or text that is not all white space, a hash with what is stored of it, and nothing else is stored |
| ExtendedData.CompactLeavesNoBlanks | decidim-restfull-core/app/services/decidim/rest_full/core/api_system_operations.rb:471-478 | no blank hash entry is left at any hash depth |
| ExtendedData.CompactIdempotent | decidim-restfull-core/app/services/decidim/rest_full/core/api_system_operations.rb:471-478 | compacting twice is compacting once |
| ExtendedData.FetchCompact | decidim-restfull-core/lib/decidim/rest_full/core/extended_data_at_path.rb:10-18 | reading a compacted tree at any path is clearing what the tree held there |
| ExtendedData.MergeSucceeds | decidim-restfull-core/app/services/decidim/rest_full/core/api_system_operations.rb:450-469 | along hashes a merge fails exactly for a scalar over an existing hash |
| ExtendedData.MergeErrors | decidim-restfull-core/app/services/decidim/rest_full/core/api_system_operations.rb:456-467 | a failing merge is Not Found exactly when a value that is no hash stands before the path's parent |
| ExtendedData.CompactEarly | decidim-restfull-core/app/services/decidim/rest_full/core/api_system_operations.rb:44-46 | along a hash path, compacting before the merge as well as after it changes nothing in the end |
| ExtendedData.UpdateIgnoresBlanks | decidim-restfull-core/app/services/decidim/rest_full/core/api_system_operations.rb:44-46 | along a hash path an update with a hash succeeds and does not depend on blanks in the stored tree |
| ExtendedData.UpdateTwice | decidim-restfull-core/app/services/decidim/rest_full/core/api_system_operations.rb:44-49 | along a hash path two updates are one update with the combined payload |
| ExtendedData.HashPathUpdatesCommute | decidim-restfull-core/app/services/decidim/rest_full/core/api_system_operations.rb:44-49 | along hash paths, updates at two paths, neither a prefix of the other, give the same tree in either order whenever both succeed |
| ExtendedData.PutGet | decidim-restfull-core/app/services/decidim/rest_full/core/api_system_operations.rb:38-51 | after an update along hashes the path reads as the compacted merged value, or an empty hash when nothing is left |
| ExtendedData.OldKeysSurvive | decidim-restfull-core/app/services/decidim/rest_full/core/api_system_operations.rb:463-464 | keys of the old hash at the path that the payload leaves out survive |
| ExtendedData.UpdateFrame | decidim-restfull-core/app/services/decidim/rest_full/core/api_system_operations.rb:450-469 | after any successful update, into strings too, a path not comparable with the updated one reads as on the compacted old tree |
| StringPaths.HashPayloadSucceedsIff | decidim-restfull-core/app/services/decidim/rest_full/core/api_system_operations.rb:450-469 | an update with a hash succeeds exactly along a hash path, so the results about hash payloads there cover every such update |
| StringPaths.PutGetIffHashPath | decidim-restfull-core/app/services/decidim/rest_full/core/api_system_operations.rb:456-467 | for every successful update, put-get holds exactly when the path runs through hashes or absent keys, or a blank was put |
| StringPaths.PutGetFailsInsideText | decidim-restfull-core/app/services/decidim/rest_full/core/api_system_operations.rb:463-467 | a path into a string is an input for which put-get fails |
| StringPaths.CompactEarlyIff | decidim-restfull-core/app/services/decidim/rest_full/core/api_system_operations.rb:44-46 | for every update that succeeds on the tree and on the compacted tree, the results agree exactly when no present text goes into a string that is blank |
| StringPaths.UpdatesCommuteIff | decidim-restfull-core/app/services/decidim/rest_full/core/api_system_operations.rb:44-49 | of all updates at two paths, neither a prefix of the other and not both into one string, that succeed in both orders, exactly those commute that put no present text into a blank string |
| StringPaths.BlankTextDoesNotLast | decidim-restfull-core/app/services/decidim/rest_full/core/api_system_operations.rb:450-478 | a blank string and two updates whose orders store different trees |
| StringPaths.CommuteInOneStringIff | decidim-restfull-core/app/services/decidim/rest_full/core/api_system_operations.rb:456-467 | two updates inside one string commute exactly when both orders leave the same of that string |
| StringPaths.ApartInOneStringCommutes | decidim-restfull-core/app/services/decidim/rest_full/core/api_system_operations.rb:456-467 | they do commute when the first occurrence of one text ends before that of the other, which is still first after the replacement, and neither replacement leaves the string blank |
| StringPaths.OneStringDoesNotCommute | decidim-restfull-core/app/services/decidim/rest_full/core/api_system_operations.rb:456-467 | a string and two updates inside it whose orders store different text |
| DocumentedMerge.UpdateIsRecursiveIffRepeated | decidim-restfull-core/spec/requests/decidim/api/rest_full/users/user_extended_data_controller_update_spec.rb:12-24 | the stored tree is that of the documented recursive merge exactly when a payload hash that meets an old hash below the path repeats every entry there that compaction keeps |
| DocumentedMerge.UpdateDropsNestedKey | decidim-restfull-core/app/services/decidim/rest_full/core/api_system_operations.rb:454 | a nested hash of which the stored update loses a key |
| ExtendedDataStore.CompactBlankRecursively | decidim-restfull-core/app/services/decidim/rest_full/core/api_system_operations.rb:471-478 | the loop computes the specified compaction |
| ExtendedDataStore.PutUnderNilTwice | decidim-restfull-core/app/services/decidim/rest_full/core/api_system_operations.rb:456-467 | a path of dots alone merges nothing: the last present payload stands under the empty key, and every other entry is kept |
| ExtendedDataStore.StoredHasNoBlanks | decidim-restfull-core/app/services/decidim/rest_full/core/api_system_operations.rb:44-49 | whatever the path, no stored tree has a blank entry |
| ExtendedDataStore.ExtendedDataRow.ApplyUpdate | decidim-restfull-core/app/services/decidim/rest_full/core/api_system_operations.rb:38-52 | for every path text and payload the row ends with the specified tree and the path's new value is returned; a missing parameter, a failed merge or an oversized tree stores nothing |
| Pagination.NormalizePerPage | decidim-restfull-core/app/controllers/concerns/decidim/api/rest_full/collection_pagination.rb:62-67 | the page size stays in 1..100 and sizes in that range are kept |
| Pagination.PageAskedFor | decidim-restfull-core/app/controllers/concerns/decidim/api/rest_full/collection_pagination.rb:22-67 | a request without a usable page is for the first, without a usable size for twenty rows, and over a hundred for a hundred; random order always promises another page |
| Pagination.PageContents | decidim-restfull-core/app/controllers/concerns/decidim/api/rest_full/collection_pagination.rb:22-47 | a page is its slice of the list, and more follows exactly when rows are left after it |
| Pagination.PagesAreRest | decidim-restfull-core/app/controllers/concerns/decidim/api/rest_full/collection_pagination.rb:37-46 | following next from a page gives the rest of the list; all pages but the last are full |
| Pagination.PagesAreWhole | decidim-restfull-core/app/controllers/concerns/decidim/api/rest_full/collection_pagination.rb:22-67 | walking from page 1 ends and concatenates to the whole list for every page size asked for; the last page is empty only for an empty list |
| Pagination.PrevUndoesNext | decidim-restfull-core/app/controllers/concerns/decidim/api/rest_full/collection_pagination.rb:43-44 | the previous link of the next page is the page itself |
| BlogOrder.OrderingUnique | decidim-restfull-core/app/controllers/decidim/api/rest_full/core/resources_controller.rb:73-83 | with the id tie-break there is only one order, ties in published_at included |
| BlogOrder.RequestListing | decidim-restfull-blogs/app/controllers/decidim/api/rest_full/blogs/blogs_controller.rb:83-104 | a request lists the posts of visible components published before now, or acting as a user up to now and that user's later ones, newest first unless it asks for ascending, and by ascending id at one moment |
| BlogOrder.OrderAccepted | decidim-restfull-core/app/controllers/decidim/api/rest_full/core/resources_controller.rb:64-92 | which orders and directions are refused, and which order is random |
| BlogOrder.NextIsSuccessor | decidim-restfull-blogs/app/controllers/decidim/api/rest_full/blogs/blogs_controller.rb:134-145 | next leads to q exactly when q is the closest later post |
| BlogOrder.NextEndsAtLast | decidim-restfull-blogs/app/controllers/decidim/api/rest_full/blogs/blogs_controller.rb:134-145 | only the last post has no next |
| BlogOrder.PreviousUndoesNext | decidim-restfull-blogs/app/controllers/decidim/api/rest_full/blogs/blogs_controller.rb:134-145 | prev and next are inverse |
| BlogOrder.WalkIsRest | decidim-restfull-blogs/app/controllers/decidim/api/rest_full/blogs/blogs_controller.rb:122-145 | from any post the next links visit the rest of the order and stop |
| BlogOrder.RequestWalkEqualsPages | decidim-restfull-blogs/app/controllers/decidim/api/rest_full/blogs/blogs_controller.rb:87-104 | on one snapshot the walk from the head shows exactly the listed posts, each once, and equals the concatenated index pages for every page size |
| BlogOrder.FirstLinkCoversIffHead | decidim-restfull-blogs/app/controllers/decidim/api/rest_full/blogs/blogs_controller.rb:122-132 | the walk from the first link covers the collection exactly when the smallest id heads the order |
| BlogOrder.FirstLinkMissesNewest | decidim-restfull-blogs/app/controllers/decidim/api/rest_full/blogs/blogs_controller.rb:122-132 | two posts in the default order for which the first link misses the newer one |
| ApiJobPayload.ReplayedParams | decidim-restfull-core/lib/decidim/rest_full/api_job_payload.rb:9-16 | exactly which keys the replayed parameters have, and what each holds |
| ApiJobPayload.PersistedIff | decidim-restfull-core/app/controllers/concerns/decidim/api/rest_full/async_api_job_enqueuing.rb:39-61 | a request is persisted exactly when its data, and its filter if present, are hashes |
| ApiJobPayload.KeysByName | decidim-restfull-core/app/controllers/concerns/decidim/api/rest_full/async_api_job_enqueuing.rb:39-44 | the ten keys that are permitted and the three routing keys that are dropped |
| ApiJobPayload.AsyncRefinesSync | decidim-restfull-core/app/controllers/concerns/decidim/api/rest_full/async_api_job_enqueuing.rb:39-61 | a handler gets from the replay what the direct call gives it, for every permitted key, for required data and filter; other keys are dropped |
| ApiJobs.RunKeepsInv | decidim-restfull-core/app/jobs/decidim/rest_full/execute_api_job_job.rb:8-52 | in every run completed rows have equal data and return value and no error, failed rows no result and an error class, and a row is processing while a delivery works on it, which works on that very job |
| ApiJobs.TokenRefused | decidim-restfull-core/app/models/decidim/rest_full/api_job.rb:49-58 | a job is refused exactly when its application is unknown or another organization's, with the error that says which |
| ApiJobs.RunOnRows | decidim-restfull-core/app/controllers/decidim/api/rest_full/jobs/jobs_controller.rb:35-57 | a row goes exactly by a destroy from its own context, keeps its request, is started only for an application of its organization, and is terminal when a delivery ends exactly if its payload fits the cap of that moment (or it was done before and is refused now) |
| ApiJobs.RestIsTerminal | decidim-restfull-core/app/jobs/decidim/rest_full/execute_api_job_job.rb:8-52 | in every run a job with no delivery waiting or at work is done, unless a delivery of it ended under a cap below its size |
| ApiJobRuns.RunEffects | decidim-restfull-core/lib/decidim/rest_full/sync_runner.rb:9-11 | the database of every run is that of the returning commands alone, each on its job's stored request, in transaction order; a command that raises leaves no effect, whatever it wrote |
| ApiJobRuns.RequestAccepted | decidim-restfull-core/app/controllers/concerns/decidim/api/rest_full/async_api_job_enqueuing.rb:14-27 | a request is accepted exactly when its id is new and its payload within the cap, and is then a pending job with all it asked for and one more delivery waiting |
| ApiJobRuns.RowsFromRequests | decidim-restfull-core/app/controllers/concerns/decidim/api/rest_full/async_api_job_enqueuing.rb:18-26 | in every run each job comes from an accepted request and keeps its owner, token, command, payload and size |
| ApiJobRuns.RowsAccounted | decidim-restfull-core/app/jobs/decidim/rest_full/execute_api_job_job.rb:8-52 | in every run a completed row holds what its command returned, run since it was requested, for the row's own owner, key and payload on the database of that moment, and a failed row the error raised, or why its token was refused |
| ApiJobRuns.PollShowsOutcome | decidim-restfull-core/app/controllers/decidim/api/rest_full/jobs/jobs_controller.rb:90-104 | polling a completed job shows what its command returned as data and as return value, even a false one |
| ApiJobRuns.AsyncRunRefinesSync | decidim-restfull-core/app/controllers/concerns/decidim/api/rest_full/async_api_job_enqueuing.rb:39-61 | in every run an accepted request shows, once completed, what the direct call with its parameters would have returned at the moment its command ran, for commands that read permitted keys, data and filter |
| ApiJobRuns.DeliveriesConserved | decidim-restfull-core/app/jobs/decidim/rest_full/execute_api_job_job.rb:8-21 | in every run the deliveries of a job are those that still wait, those refused, and one for each run of its command; so without a redelivery it runs at most once |
| ApiJobRuns.RedeliveryRunsAgain | decidim-restfull-core/app/jobs/decidim/rest_full/execute_api_job_job.rb:8-21 | after any run a finished job that is delivered again runs its command once more |
| ApiJobRuns.RedeliveryCountsTwice | decidim-restfull-core/app/jobs/decidim/rest_full/execute_api_job_job.rb:8-21 | one request and one redelivery with the command's effect twice |
| ApiJobRuns.OversizeStaysProcessing | decidim-restfull-core/app/models/decidim/rest_full/api_job.rb:66-71 | a job whose cap was lowered stays in processing with its effect committed |
| ApiJobRuns.OversizeStaysPending | decidim-restfull-core/app/models/decidim/rest_full/api_job.rb:49-71 | a job whose cap was lowered and whose application went to another organization stays pending |
| ApiJobStore.ApiJobStore.Enqueue | decidim-restfull-core/app/controllers/concerns/decidim/api/rest_full/async_api_job_enqueuing.rb:14-27 | an accepted request is a pending row with a queue entry; an oversized one stores nothing |
| ApiJobStore.ApiJobStore.Perform | decidim-restfull-core/app/jobs/decidim/rest_full/execute_api_job_job.rb:8-52 | an undisturbed perform is the protocol's start, run and finish in one, and leaves a fitting row terminal |
| ApiJobStore.ApiJobStore.Destroy | decidim-restfull-core/app/controllers/decidim/api/rest_full/jobs/jobs_controller.rb:35-57 | a destroy finds the row exactly when the client is its owner, and removes only that row |
| DraftProposals.StepCounts | decidim-restfull-proposals/app/services/decidim/rest_full/proposals/draft_proposals_operations.rb:15-75 | every operation keeps one draft per author and component, and published plus drafts within the limit |
| DraftProposals.RunWithinLimit | decidim-restfull-proposals/app/services/decidim/rest_full/proposals/draft_proposals_operations.rb:117-148 | both hold over every run, although publish never checks the limit |
| DraftProposals.OneDraftIffSpaceMatches | decidim-restfull-proposals/app/services/decidim/rest_full/proposals/draft_proposals_operations.rb:15-23 | a request keeps the one-draft rule in every store exactly when its space parameters are absent or match |
| DraftProposals.SecondDraft | decidim-restfull-proposals/app/services/decidim/rest_full/proposals/draft_proposals_operations.rb:97-104 | with another space named a second draft is created |
| DraftProposals.DraftOperationsSucceedIff | decidim-restfull-proposals/app/services/decidim/rest_full/proposals/draft_proposals_operations.rb:25-75 | update, destroy and publish succeed exactly on a draft of the acting user made through the same client in a visible component of the space named, with a valid form where it counts; otherwise such a draft is not found |
| DraftProposals.CreateSucceedsIff | decidim-restfull-proposals/app/services/decidim/rest_full/proposals/draft_proposals_operations.rb:15-23 | a create succeeds exactly for a user who may act, in a visible component, without a draft there and below the limit, and stores an empty draft of that user and client |
| DraftProposals.StepTouchesOwnDraft | decidim-restfull-proposals/app/services/decidim/rest_full/proposals/draft_proposals_operations.rb:117-124 | in every step only a draft of the asking user, made through the asking client, changes or goes |
| DraftProposals.UpdatedTextStays | decidim-restfull-proposals/app/services/decidim/rest_full/proposals/draft_proposals_operations.rb:210-234 | a non-empty update rewrites only the two fields, each to at most one entry under the current locale; from then on a field holds at most one locale and its text is the one submitted last or shown before, after any further operations that do not submit it |
| DraftProposals.TextSurvives | decidim-restfull-proposals/app/services/decidim/rest_full/proposals/draft_proposals_operations.rb:210-234 | the text of a field survives every later operation that does not submit it, in whatever locales |
| DraftProposals.PublishedStays | decidim-restfull-proposals/app/services/decidim/rest_full/proposals/draft_proposals_operations.rb:117-124 | a published proposal is never changed or found by a draft operation again |
| DraftStore.DraftProposalsOperations.Create | decidim-restfull-proposals/app/services/decidim/rest_full/proposals/draft_proposals_operations.rb:15-23 | the method stores what the specified create stores, or nothing |
| DraftStore.DraftProposalsOperations.Update | decidim-restfull-proposals/app/services/decidim/rest_full/proposals/draft_proposals_operations.rb:25-38 | collapsing in memory and overlaying stores the specified update; a failed one stores nothing |
| DraftStore.DraftProposalsOperations.Publish | decidim-restfull-proposals/app/services/decidim/rest_full/proposals/draft_proposals_operations.rb:49-56 | the method publishes the caller's own draft, or changes nothing |
| HostChange.UpdateWritesPending | decidim-restfull-core/app/services/decidim/rest_full/core/api_system_operations.rb:24-51 | an extended-data update leaves the text it merged under the pending key unless that is blank, and keeps the pending host when its path starts elsewhere |
| HostChange.RequestOutcome | decidim-restfull-core/lib/decidim/rest_full/core/overrides/update_organization_form_override.rb:22-42 | a request goes through exactly when all else is valid and the host it asks for is not blank and current or free; it then waits, or ends the waiting |
| HostChange.SyncOutcome | decidim-restfull-core/app/commands/decidim/rest_full/core/syncronize_unconfirmed_host.rb:16-41 | what a sync comes to: nothing without a pending host, each error under its own condition, and else the pending host becomes the current one |
| HostChange.StepKeepsInvIff | decidim-restfull-core/app/services/decidim/rest_full/core/api_system_operations.rb:24-51 | a step keeps the pending host absent or different from the current one exactly when it is no direct write of the current host; after such a write every sync fails on equal hosts |
| HostChange.RunKeepsInvIff | decidim-restfull-core/lib/decidim/rest_full/core/overrides/update_organization_command_override.rb:12-23 | over every run of requests, syncs and direct writes the pending host stays absent or different from the current one exactly when no direct write puts the current host there |
| HostChange.SameHostNeverFires | decidim-restfull-core/app/commands/decidim/rest_full/core/syncronize_unconfirmed_host.rb:18 | in every run without such a write the equal-hosts error never fires |
| HostChange.CurrentHostWritten | decidim-restfull-core/app/commands/decidim/rest_full/core/syncronize_unconfirmed_host.rb:18 | an organization whose current host is written under the pending key, for which the error fires |
| HostChange.HostChangesOnlyByPromotion | decidim-restfull-core/app/commands/decidim/rest_full/core/syncronize_unconfirmed_host.rb:16-41 | a host changes only to the pending one, in a sync whose lookup lists every configured address or none is configured |
| HostChange.PendingWasRequested | decidim-restfull-core/app/services/decidim/rest_full/core/api_system_operations.rb:310-316 | in every run a pending host, and a host in use, was requested or written directly for that organization, or was there at the start |
| HostChange.SyncSettles | decidim-restfull-core/app/commands/decidim/rest_full/core/syncronize_unconfirmed_host.rb:16-41 | after a successful sync nothing in the run changes the organization until the next request or direct write for it, and no sync of it fails |
| HostChange.DistinctHostsIffFree | decidim-restfull-core/app/commands/decidim/rest_full/core/syncronize_unconfirmed_host.rb:37-41 | a step keeps hosts distinct exactly when it is no promotion that DNS and the record let through onto a host taken by then |
| HostChange.RunKeepsHostsDistinctIff | decidim-restfull-core/lib/decidim/rest_full/core/overrides/update_organization_form_override.rb:30-42 | over every run hosts stay distinct exactly when the record refuses each promotion onto a taken host |
| HostChange.TwoPromotionsOneHost | decidim-restfull-core/app/commands/decidim/rest_full/core/syncronize_unconfirmed_host.rb:37-41 | the command takes two organizations to one host, free when each asked for it, unless the record refuses |
| HostChange.OrganizationRecord.Call | decidim-restfull-core/app/commands/decidim/rest_full/core/syncronize_unconfirmed_host.rb:16-41 | the command's checks and writes are those specified, and its failures change nothing |
| HostChange.OrganizationRecord.Save | decidim-restfull-core/lib/decidim/rest_full/core/overrides/update_organization_command_override.rb:12-19 | the submitted host becomes pending, or clears it when it is the current one |
| Fingerprint.FloatTextInjective | decidim-restfull-core/lib/decidim/rest_full/core/http_cache/resource_show_fingerprint.rb:62 | different microseconds print differently |
| Fingerprint.JoinPrefix | decidim-restfull-core/lib/decidim/rest_full/core/http_cache/resource_show_fingerprint.rb:58-67 | parts without a slash are recovered from the join, whatever segments follow |
| Fingerprint.EtagDeterminesRequest | decidim-restfull-core/lib/decidim/rest_full/core/http_cache/resource_show_fingerprint.rb:52-69 | equal ETags mean equal organization, class, record, client, actor, locales and last modification |
| Fingerprint.SortIsCanonical | decidim-restfull-core/lib/decidim/rest_full/core/http_cache/resource_show_fingerprint.rb:38 | two lists of locales sort to the same list exactly when they hold the same locales |
| Fingerprint.EtagsAgreeIff | decidim-restfull-core/lib/decidim/rest_full/core/http_cache/resource_show_fingerprint.rb:52-69 | ETags are equal exactly for the same request components, whatever the order of locales, and the same segment text |
| LastModified.RegisteringIsMonotone | decidim-restfull-core/lib/decidim/rest_full/core/http_cache/fingerprint_contributor_registry.rb:17-41 | more contributors only move Last-Modified forward and only append segments |
| LastModified.LatestOfAll | decidim-restfull-core/lib/decidim/rest_full/core/http_cache/resource_show_fingerprint.rb:41-50 | Last-Modified is the latest of the record's own time and every time a contributor reports |
| LastModified.TimesReported | decidim-restfull-core/lib/decidim/rest_full/core/http_cache/fingerprint_contributor_registry.rb:27-33 | the times are exactly those a contributor reports for the record |
| LastModified.SegmentsReported | decidim-restfull-core/lib/decidim/rest_full/core/http_cache/fingerprint_contributor_registry.rb:35-41 | a contributor that comes last adds its segment at the end, if it has one |
| LastModified.FingerprintContributorRegistry.Register | decidim-restfull-core/lib/decidim/rest_full/core/http_cache/fingerprint_contributor_registry.rb:17-25 | an entry is appended to its profile, an empty one is not, and other profiles stay |
| LastModified.WriteMovesValidator | decidim-restfull-core/lib/decidim/rest_full/core/http_cache/resource_show_fingerprint.rb:41-50 | a write in between leaves a strictly later Last-Modified |
| LastModified.EqualEtagsNoWrite | decidim-restfull-core/app/models/decidim/rest_full/core/resource_extended_data.rb:11-12 | equal ETags at two moments of a run mean no write of the record or changing write of its extended data in between |
| RouteRegistry.RunKeepsInv | decidim-restfull-core/lib/decidim/rest_full/core/route_registry.rb:24-94 | over every run, raising steps included, no block is drawn twice into the table |
| RouteRegistry.RunKeepsRegistered | decidim-restfull-core/lib/decidim/rest_full/core/route_registry.rb:24-94 | over every run the registry holds the blocks registered, in order, and the table only them and the core block |
| RouteRegistry.RaisesIffDuplicate | decidim-restfull-core/lib/decidim/rest_full/core/route_registry.rb:85-94 | drawing raises exactly when a block comes twice or was applied before |
| RouteRegistry.DrawnIsRegistered | decidim-restfull-core/lib/decidim/rest_full/core/route_registry.rb:52-83 | after a draw that did not raise the table holds the registered blocks, and when the core block is among them |
| RouteRegistry.DistinctNeverRaises | decidim-restfull-core/lib/decidim/rest_full/core/route_registry.rb:85-94 | with distinct blocks nothing raises |
| RouteRegistry.AppendIdempotentIff | decidim-restfull-core/lib/decidim/rest_full/core/route_registry.rb:67-94 | appending twice is appending once exactly when no new block waits behind the first duplicate |
| RouteRegistry.AppendAfterRaise | decidim-restfull-core/lib/decidim/rest_full/core/route_registry.rb:67-94 | three blocks for which the second append draws more than the first |
| RouteRegistry.RouteRegistry.EvaluateBlocks | decidim-restfull-core/lib/decidim/rest_full/core/route_registry.rb:85-94 | the loop draws up to the first duplicate and reports it |
| RouteRegistry.RouteRegistry.ApplyTo | decidim-restfull-core/lib/decidim/rest_full/core/route_registry.rb:52-65 | apply appends to a drawn table and draws an empty one |
| Webhooks.DeliveriesAreTargets | decidim-restfull-core/db/migrate/20241125061513_create_api_client_permissions.rb:10 | with the unique index each target is due once and any other registration never |
| Webhooks.ExactlyOnceIffUnique | decidim-restfull-core/db/migrate/20241125061513_create_api_client_permissions.rb:10 | for every event the deliveries are the targets, each once, exactly when no permission a target relies on has two rows |
| Webhooks.DuplicatePermissionDeliversTwice | decidim-restfull-core/db/migrate/20241125061513_create_api_client_permissions.rb:10 | a repeated permission row, for which a registration is enqueued twice |
| Webhooks.WebhookJobs.PerformSpace | decidim-restfull-core/app/jobs/decidim/rest_full/core/space_webhook_job.rb:7-56 | the nested loops enqueue each subscribed registration of each permitted client of the organization exactly once and nothing else |
| Webhooks.WebhookJobs.PerformProposal | decidim-restfull-proposals/app/jobs/decidim/rest_full/proposals/proposal_webhook_job.rb:7-63 | the same for proposals, and nothing while the module is disabled |
| Translations.MergeTranslatedLocaleUpdates | decidim-restfull-core/app/services/decidim/rest_full/core/api_system_operations.rb:264-277 | every translated field gets its old locales overridden by the submitted ones, without machine translations, and leaves the updates |
| Translations.RestoreColumnWins | decidim-restfull-core/app/services/decidim/rest_full/core/api_system_operations.rb:219-234 | whatever the commands left, a restored field is its snapshot overridden by the submitted locales, and its machine translations are those left, those submitted, or none |
| Translations.MachineKeptIff | decidim-restfull-core/app/services/decidim/rest_full/core/api_system_operations.rb:219-234 | the machine translations the commands left stay stored exactly when none were submitted and the restore corrects nothing, or both are the same |
| Translations.OrganizationColumns.ApplyUpdates | decidim-restfull-core/app/services/decidim/rest_full/core/api_system_operations.rb:200-217 | a whole update stores the specified columns; every field with a non-blank snapshot is that snapshot overridden by the submitted locales, machine translations apart |
| Translations.CommandsStandIff | decidim-restfull-core/app/services/decidim/rest_full/core/api_system_operations.rb:219-277 | when the commands keep what the forms were given, the column they left is the one stored exactly when no machine translations were submitted, or those very ones are there |
| Translations.SubmittedMachineStored | decidim-restfull-core/app/services/decidim/rest_full/core/api_system_operations.rb:219-277 | machine translations of a payload that are stored over Decidim's own |
| Translations.RestoreLosesMachine | decidim-restfull-core/app/services/decidim/rest_full/core/api_system_operations.rb:219-234 | a restore of a forgotten locale that loses Decidim's machine translations |

## Left out

- Role ids whose JSON holds a number with a fraction or an exponent: the reader does not read them.
- RoleIdCodec.DecodedIdIsItsText: ids whose JSON strings hold bytes that are no UTF-8 decode in Ruby, which keeps such
  bytes, and are invalid in the model, where text is Unicode text.
- JSON extensions of Ruby's parser (comments, unknown escapes, lone surrogates): the reader follows RFC 8259.
- Role requests with missing attributes, and rows without a user.
- RoleView's `accepted_invite`, `created_at` and `updated_at`, which no lookup reads.
- The merge walks Ruby hashes in place on a deep copy; the model merges on values, so aliasing between the copy
  and its parts is not captured.
- The byte size of stored JSON is a parameter, for extended data and for job payloads.
- `UserExtendedData` and organization variants of the update: the same merge on another row.
- The query strings of page links, and random ordering, where pages promise nothing.
- The order named "desc", which passes the allowed list but is no column.
- Two workers on one job, worker crashes, and a crash between creating a row and queueing it.
- Queue retries of the host sync, invalid load-balancer addresses, and a failure between the two writes of a promotion.
- What Decidim's own PublishProposal and organization commands do besides what is stated here.
- The `disable_clear_and_finalize` flag a raising draw leaves set, and the system routes.
- Webhook payload contents, signatures and delivery.
- The collection fingerprint, weighted votes, OAuth, abilities, serializers, and the client: flat code or outside code.
