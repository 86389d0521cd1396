# CMS with collaboration: a Dafny model

This project models the server and client logic of a small content management system
with live collaboration. It follows the C# back end, the TypeScript presence store and
the PHP export controller, one Dafny module per source file:

- **Collaboration hub** (`hub.dfy`, module `Collaboration`). The SignalR hub is a class
  with three pieces of state:
  - the append-only `CollaborationSessions` table;
  - a map from group name to the connections in that group;
  - an outbox of deliveries, each an audience and an event.

  Each hub method takes the calling connection id.
  - `Guid.Parse` is partial and runs after the group add, so a malformed id leaves the
    caller in the group with no row.
  - `GenerateUserColor` fails on the one hash that `Math.Abs` cannot negate, after the
    row was saved.
- **Presence store** (`store.dfy`, module `PresenceStore`). The client's roster is a pure
  reducer over the hub's events. The store object keeps the connection, the flag and
  the roster, and guards the two sends.
- **Content service and controller** (`content_service.dfy` as `Contents`,
  `content_controller.dfy` as `ContentApi`).
  - Contents and versions are tables with their primary keys and the unique
    `(ContentId, VersionNumber)` index.
  - New versions get the next number, and deleting a content cascades to its versions.
  - The controller maps missing rows and missing claims to responses.
  - It runs the three bulk loops, each proved against a function of the tables before it.
- **Dashboard** (`dashboard.dfy`): the four counters, and the twenty-newest activity feed.
- **Categories and tags** (`category.dfy`, `tag.dfy`, with the shared slug rule in
  `slug.dfy`): root listing, the category delete guard, get-or-create of tags by exact
  name, and search and sort.
- **Media library** (`media.dfy`): the upload validation order, the stored row, the
  type-prefix filter, and the paging arithmetic.
- **Templates** (`template.dfy`): the visibility filter, newest-first listing, create,
  update and delete.
- **Authentication** (`auth.dfy`): register and authenticate. The password hash is an
  injected function.
- **Start-up** (`program.dfy`, module `Startup`): the CORS origin predicate, and the
  selection of the SignalR query-string token.
- **PHP export** (`export.dfy`, module `PhpExport`): the format dispatch of
  `exportContent`, the download file name, the Markdown builder, the HTML template and
  the not-found paths.

Shared pieces:

- `common.dfy`: options, ids, time, 32-bit integers, responses, ordinal and ASCII
  case-insensitive string tests.
- `seqs.dfy`: filtering, keys and uniqueness of table rows.
- `sorting.dfy`: a stable insertion sort by a total order. It stands in for the
  `OrderBy` of every query.

Inputs the code reads from its environment are parameters:

- the clock is a `now` argument, read once per request (once per bulk call);
- `Guid.NewGuid` is a fresh-id argument;
- the `NameIdentifier` claim is an `Option<Guid>`;
- `Guid.Parse`, `Guid.ToString` and `string.GetHashCode` are injected functions on the hub;
- SHA-256 and Base64 form the `hashPassword` field of the auth service;
- PHP's `strip_tags`, `json_encode` and date formatting form a `Runtime` value.

## Model

| member | source | states |
|---|---|---|
| Collaboration.ColorIndex | backend/Hubs/CollaborationHub.cs:116-118 | no index exactly for int.MinValue, where Math.Abs throws; otherwise an index inside the eight-entry palette |
| Collaboration.ColorIndexSymmetric | backend/Hubs/CollaborationHub.cs:117 | a hash and its negation pick the same palette entry |
| Collaboration.GenerateUserColor | backend/Hubs/CollaborationHub.cs:108-119 | the colour is one of the palette strings, and fails exactly when the id's hash is int.MinValue |
| Collaboration.ColorDependsOnlyOnHash | backend/Hubs/CollaborationHub.cs:116-118 | two ids with equal hashes get the same colour |
| Collaboration.DisplayName | backend/Hubs/CollaborationHub.cs:36-40 | the stored username of that id, or "Unknown" when no user has it |
| Collaboration.FirstActive | backend/Hubs/CollaborationHub.cs:52-53 | the index of the connection's first active row, with no earlier active row of that connection; none exactly when it has no active row |
| Collaboration.RetireFirst | backend/Hubs/CollaborationHub.cs:52-60 | same length; only the connection's first active row changes, to IsActive=false and LeftAt=now, keeping its other fields; no active row means no change |
| Collaboration.RetireFirstActiveCount | backend/Hubs/CollaborationHub.cs:92-99 | a leave or disconnect lowers the number of active rows by one exactly when the connection had one |
| Collaboration.JoinKeepsActiveIffOpen | backend/Hubs/CollaborationHub.cs:23-31 | the row a join appends keeps "active exactly while LeftAt is unset" |
| Collaboration.RetireKeepsActiveIffOpen | backend/Hubs/CollaborationHub.cs:57-58 | retiring sets both fields together, so the same row rule survives |
| Collaboration.FirstActiveAfterJoin | backend/Hubs/CollaborationHub.cs:52-53 | after a join the connection's lookup finds the older active row if there is one, otherwise the new row |
| Collaboration.RepeatedJoinOutlivesOneRetire | backend/Hubs/CollaborationHub.cs:19-34 | two joins on one connection and one retire leave the second join's row active |
| Collaboration.Hub.constructor | backend/Hubs/CollaborationHub.cs:13-17 | the injected functions and table are stored; no groups, empty outbox |
| Collaboration.Hub.JoinDocument | backend/Hubs/CollaborationHub.cs:19-46 | the caller joins the group first; a malformed id then fails with no row and no message; otherwise exactly one active row is appended; a hash overflow then fails without a message; otherwise UserJoined with the display name and colour goes to the whole group, the joiner included |
| Collaboration.Hub.LeaveDocument | backend/Hubs/CollaborationHub.cs:48-64 | the caller leaves the named group; the caller's first active row is retired, whatever its document; UserLeft with the argument id goes to the remaining members even when no row was found |
| Collaboration.Hub.UpdateContent | backend/Hubs/CollaborationHub.cs:66-76 | with no active row nothing is sent; otherwise ContentChanged(content, row user) goes to the row's document group minus the caller; tables and groups unchanged |
| Collaboration.Hub.UpdateCursor | backend/Hubs/CollaborationHub.cs:78-88 | the same for CursorMoved(row user, position) |
| Collaboration.Hub.OnDisconnected | backend/Hubs/CollaborationHub.cs:90-106 | the first active row is retired; UserLeft(row user) goes to its document group, or nothing is sent without a row; the connection then belongs to no group |
| Collaboration.Hub.Retire | backend/Hubs/CollaborationHub.cs:55-59 | the table becomes RetireFirst of the old table |
| PresenceStore.MoveCursor | frontend/src/store/collaborationStore.ts:49-55 | same length and order; matching entries get the new cursorPosition, all others unchanged |
| PresenceStore.Reduce | frontend/src/store/collaborationStore.ts:32-55 | UserJoined appends at the end; UserLeft keeps the other entries in their order and with their multiplicities, and drops every entry of that id; ContentChanged changes nothing; CursorMoved is MoveCursor |
| PresenceStore.LeftRoster | frontend/src/store/collaborationStore.ts:38-42 | the result is a subsequence of the roster; each entry of another id keeps its count, every entry of that id is gone |
| PresenceStore.LeftRosterSplits | frontend/src/store/collaborationStore.ts:38-42 | removal distributes over concatenation and drops exactly a matching single entry |
| PresenceStore.LeaveIdempotent | frontend/src/store/collaborationStore.ts:38-42 | a second UserLeft for the same id changes nothing |
| PresenceStore.JoinThenLeave | frontend/src/store/collaborationStore.ts:32-42 | a join followed by a leave of a new id restores the roster |
| PresenceStore.RejoinDuplicates | frontend/src/store/collaborationStore.ts:32-36 | a UserJoined for an id already listed leaves at least two entries with that id |
| PresenceStore.CursorThenLeave | frontend/src/store/collaborationStore.ts:38-55 | a cursor move followed by a leave of the same id is just the leave |
| PresenceStore.MoveCursorThenRemove | frontend/src/store/collaborationStore.ts:49-55 | removing an id after moving its cursor equals removing it directly |
| PresenceStore.CollaborationStore.constructor | frontend/src/store/collaborationStore.ts:21-24 | no connection, empty roster, not connected |
| PresenceStore.CollaborationStore.Receive | frontend/src/store/collaborationStore.ts:32-55 | the roster becomes Reduce of the event; connection and flag kept |
| PresenceStore.CollaborationStore.InitConnection | frontend/src/store/collaborationStore.ts:26-64 | JoinDocument is invoked only after a successful start; connection and isConnected are stored only when both succeed; otherwise the state is unchanged |
| PresenceStore.CollaborationStore.Disconnect | frontend/src/store/collaborationStore.ts:66-72 | with a connection: reset to no connection, not connected, empty roster; without one: no change |
| PresenceStore.CollaborationStore.UpdateCursor | frontend/src/store/collaborationStore.ts:74-79 | the hub is invoked exactly when a connection exists and is Connected |
| PresenceStore.CollaborationStore.SendContentChange | frontend/src/store/collaborationStore.ts:81-86 | the same guard for UpdateContent |
| Contents.NewContent | backend/Controllers/ContentController.cs:73-78 | the request's fields, status draft, no publish time |
| Contents.PublishedRow | backend/Services/ContentService.cs:90-92 | status published, PublishedAt and UpdatedAt = now; every other field kept |
| Contents.PublishIdempotent | backend/Services/ContentService.cs:82-96 | publishing twice at one time is publishing once |
| Contents.LatestNumber | backend/Services/ContentService.cs:109-112 | None exactly for no versions; otherwise a number some version has, and no version has a higher one |
| Contents.LatestIsCount | backend/Services/ContentService.cs:118 | with numbering 1..n, "latest or 0" is the count of that content's versions |
| Contents.AppendKeepsNumbered | backend/Services/ContentService.cs:114-125 | appending number count+1 keeps every content numbered 1..n |
| Contents.WithoutKeepsNumbered | backend/Data/ApplicationDbContext.cs:40-43 | the cascade delete keeps the other contents numbered 1..n |
| Contents.NextNumberFree | backend/Data/ApplicationDbContext.cs:49 | the next number is not yet taken, so the unique index accepts the insert |
| Contents.NumberedIncreasing | backend/Services/ContentService.cs:118 | one content's versions have strictly increasing numbers in table order |
| Contents.NumberDescTotal | backend/Services/ContentService.cs:103 | the version order is a total preorder |
| Contents.UpdatedDescTotal | backend/Services/ContentService.cs:21 | the content order is a total preorder |
| Contents.ContentService.constructor | backend/Services/ContentService.cs:11-14 | stores the tables, which must satisfy the keys, index, foreign key and numbering |
| Contents.ContentService.AllContent | backend/Services/ContentService.cs:16-23 | a permutation of the table, most recently updated first |
| Contents.ContentService.ContentById | backend/Services/ContentService.cs:25-31 | None exactly for a missing id; otherwise the stored row of that id |
| Contents.ContentService.VersionsOf | backend/Services/ContentService.cs:98-105 | exactly that content's versions, as a permutation, highest number first |
| Contents.ContentService.CreateVersion | backend/Services/ContentService.cs:107-129 | for a stored content, appends version count+1 with the given fields; for a missing content, the foreign key refuses and nothing changes |
| Contents.ContentService.CreateContent | backend/Services/ContentService.cs:33-47 | a new draft with CreatedAt = UpdatedAt = now, plus exactly one "Initial version" numbered 1 by the author |
| Contents.ContentService.UpdateContent | backend/Services/ContentService.cs:49-67 | None and no change for a missing id; otherwise only Title, Body and UpdatedAt change, and one "Content updated" version by the request's author is appended |
| Contents.ContentService.DeleteContent | backend/Services/ContentService.cs:69-80 | false and no change for a missing id; otherwise that row and all its versions are removed |
| Contents.ContentService.PublishContent | backend/Services/ContentService.cs:82-96 | None for a missing id; otherwise that row becomes PublishedRow; no version is added |
| Contents.ContentService.WriteTracked | backend/Controllers/ContentController.cs:254-255 | the tracked row is written back in place; keys and numbering kept |
| ContentApi.JoinAddsEditor | backend/Controllers/ContentController.cs:35 | a join raises the joined content's activeEditors by one and leaves other contents' counts unchanged |
| ContentApi.RetireRemovesEditor | backend/Controllers/ContentController.cs:35 | a retire lowers the retired row's content's activeEditors by one and leaves the rest unchanged |
| ContentApi.Summary | backend/Controllers/ContentController.cs:28-36 | id, title, status and UpdatedAt copied; author is the username of the stored author row; activeEditors counts that content's active sessions |
| ContentApi.ActiveEditors | backend/Controllers/ContentController.cs:35 | at most the session count; positive exactly when some active session is on that content |
| ContentApi.Summaries | backend/Controllers/ContentController.cs:28-36 | one summary per content, in order |
| ContentApi.SummariesPermutation | backend/Controllers/ContentController.cs:26-36 | reordered contents give reordered summaries |
| ContentApi.SummariesSorted | backend/Controllers/ContentController.cs:26-36 | contents sorted by UpdatedAt give summaries sorted by lastModified |
| ContentApi.PublishAll | backend/Controllers/ContentController.cs:230-242 | the rows whose id is listed become PublishedRow; the rest are kept |
| ContentApi.RestatusAll | backend/Controllers/ContentController.cs:244-266 | the rows whose id is listed get the status and now; the rest are kept |
| ContentApi.ContentController.constructor | backend/Controllers/ContentController.cs:17-21 | the controller stores its service |
| ContentApi.ContentController.GetAll | backend/Controllers/ContentController.cs:23-39 | a permutation of all summaries, each with its active-session count, most recently updated first |
| ContentApi.ContentController.GetById | backend/Controllers/ContentController.cs:41-62 | NotFound exactly for a missing id; otherwise Ok with that row's title, body, status and dates, and the username of its stored author |
| ContentApi.ContentController.Create | backend/Controllers/ContentController.cs:64-89 | Unauthorized with no change and no claim; otherwise a new draft by the caller |
| ContentApi.ContentController.Update | backend/Controllers/ContentController.cs:91-121 | Unauthorized without a claim; NotFound for a missing id; otherwise only Title and Body change, the request Status is ignored, and the new version is the caller's |
| ContentApi.ContentController.Delete | backend/Controllers/ContentController.cs:123-134 | NotFound exactly for a missing id; otherwise NoContent and the row and its versions are gone |
| ContentApi.ContentController.Publish | backend/Controllers/ContentController.cs:136-153 | NotFound for a missing id; otherwise Ok with the published row; no version added |
| ContentApi.ContentController.BulkDelete | backend/Controllers/ContentController.cs:216-228 | one result per id in input order; success exactly when stored and not listed earlier; every listed content and its versions removed |
| ContentApi.ContentController.DeleteOne | backend/Controllers/ContentController.cs:221-225 | one iteration keeps the tables equal to "all ids so far removed" |
| ContentApi.DeleteResults | backend/Controllers/ContentController.cs:216-228 | the results of the bulk delete loop, one per id in order |
| ContentApi.DeleteResultsStep | backend/Controllers/ContentController.cs:221-226 | one more id appends its own outcome: stored and not listed earlier |
| ContentApi.DeleteResultsAt | backend/Controllers/ContentController.cs:216-228 | entry k is the outcome for ids[k]: success exactly when stored and not listed earlier |
| ContentApi.ContentController.PublishOne | backend/Controllers/ContentController.cs:235-239 | one iteration keeps the table equal to PublishAll of the ids so far; success exactly when stored; versions unchanged |
| ContentApi.ContentController.BulkPublish | backend/Controllers/ContentController.cs:230-242 | one result per id; success exactly when stored; the table becomes PublishAll; versions unchanged |
| ContentApi.ContentController.BulkUpdateStatus | backend/Controllers/ContentController.cs:244-266 | one result per id; success exactly when stored; the table becomes RestatusAll; the versions table becomes the old one followed by StatusVersions, one "Content updated" version per stored id, repeats included |
| ContentApi.StatusVersionsLength | backend/Controllers/ContentController.cs:249-263 | one appended version per stored entry of the ids |
| ContentApi.StatusVersionsPrefix | backend/Controllers/ContentController.cs:249-263 | the versions appended for a prefix of the ids are a prefix of those for all of them |
| ContentApi.StatusVersionsOf | backend/Controllers/ContentController.cs:249-263 | the appended versions of one content number the occurrences of that stored id |
| ContentApi.StatusVersionsAt | backend/Controllers/ContentController.cs:249-263 | the version for the k-th stored id sits after those of the stored ids before it, has the k-th version id, and is numbered after the content's old versions and its earlier repeats |
| ContentApi.StatusVersionsTrail | backend/Controllers/ContentController.cs:249-263 | every appended version is a "Content updated" version at now for one of the ids and one of the version ids |
| ContentApi.StatusVersionsStep | backend/Controllers/ContentController.cs:249-263 | one iteration's appended version extends StatusVersions by one id |
| ContentApi.RestatusFindKey | backend/Controllers/ContentController.cs:249-255 | restating rows leaves each id at the same index |
| ContentApi.StatusStepTables | backend/Controllers/ContentController.cs:249-263 | whatever UpdateStatusOne did for one id leaves the table equal to RestatusAll and the versions equal to StatusVersions of one more id |
| ContentApi.ContentController.UpdateStatusStep | backend/Controllers/ContentController.cs:249-263 | one iteration keeps the table equal to RestatusAll and the versions equal to the old ones plus StatusVersions of the ids so far |
| ContentApi.ContentController.UpdateStatusOne | backend/Controllers/ContentController.cs:251-258 | a stored row gets the status and now, keeps Title and Body, and gains a version by its own author; a missing id changes nothing |
| ContentApi.DeleteStep | backend/Controllers/ContentController.cs:221-225 | removing one more id from the tables gives the tables with all ids so far removed |
| ContentApi.TrailSpec | backend/Controllers/ContentController.cs:249-263 | the old versions stay as a prefix, and every appended version is a "Content updated" version at now for one of the ids, with the body and author of that stored content |
| ContentApi.PublishStep | backend/Controllers/ContentController.cs:235-239 | one publish keeps the table equal to PublishAll of the ids so far |
| ContentApi.RestatusStep | backend/Controllers/ContentController.cs:252-257 | restating one stored row keeps the table equal to RestatusAll of the ids so far |
| ContentApi.RestatusMissing | backend/Controllers/ContentController.cs:259-262 | a missing id leaves RestatusAll unchanged |
| ContentApi.FreshVersionId | backend/Controllers/ContentController.cs:256 | each iteration's version id is not yet in the table |
| Dashboard.ActiveDocuments | backend/Controllers/DashboardController.cs:24-28 | exactly the contents that have an active session |
| Dashboard.ActiveCollaborations | backend/Controllers/DashboardController.cs:24-28 | never more than the number of active sessions |
| Dashboard.ActiveDocumentIffEditors | backend/Controllers/DashboardController.cs:24-28 | a document counts exactly when its activeEditors is positive |
| Dashboard.CountSince | backend/Controllers/DashboardController.cs:29-31 | the number of versions created at or after the bound |
| Dashboard.NewVersionIsRecent | backend/Controllers/DashboardController.cs:29-31 | a version saved now raises recentEdits by one |
| Dashboard.GetStats | backend/Controllers/DashboardController.cs:20-41 | totalDocuments and totalUsers are row counts; activeCollaborations counts distinct active documents and is at most the active sessions; recentEdits counts the last 24 hours |
| Dashboard.CreatedDescTotal | backend/Controllers/DashboardController.cs:49 | the activity order is a total preorder |
| Dashboard.TitleOf | backend/Controllers/DashboardController.cs:54 | the title of the version's stored content |
| Dashboard.ActivityOf | backend/Controllers/DashboardController.cs:51-58 | id and timestamp copied; action is ChangeDescription or "Updated"; title and username from the linked rows |
| Dashboard.Newest | backend/Controllers/DashboardController.cs:49-50 | min(n, 20) versions, newest first, drawn from the table without duplication (a sub-multiset) |
| Dashboard.NewestAreNewest | backend/Controllers/DashboardController.cs:49-50 | a version left out is no newer than any kept |
| Dashboard.RecentActivities | backend/Controllers/DashboardController.cs:43-62 | the projections of Newest, in order, timestamps descending |
| Dashboard.RecentActivitiesAreNewest | backend/Controllers/DashboardController.cs:46-59 | a version missing from the feed is no newer than any entry shown |
| Slugs.SpacesToHyphens | backend/Controllers/CategoryController.cs:153 | same length; each ' ' becomes '-', every other character kept |
| Slugs.ExpandAmpersands | backend/Controllers/CategoryController.cs:154 | no '&' remains; no characters besides the input's and "and" |
| Slugs.ExpandAmpersandsAppend | backend/Controllers/CategoryController.cs:154 | expansion distributes over concatenation |
| Slugs.ExpandAmpersandsAt | backend/Controllers/CategoryController.cs:154 | each '&' becomes "and" in place |
| Slugs.ExpandWithoutAmpersand | backend/Controllers/CategoryController.cs:154 | a string without '&' is unchanged |
| Slugs.TrimStart | backend/Controllers/CategoryController.cs:155 | a suffix; exactly the leading white space removed |
| Slugs.TrimEnd | backend/Controllers/CategoryController.cs:155 | a prefix; exactly the trailing white space removed |
| Slugs.Trim | backend/Controllers/CategoryController.cs:155 | no white space at either end; no new characters |
| Slugs.TrimTrimmed | backend/Controllers/CategoryController.cs:155 | trimming a string already trimmed changes nothing |
| Slugs.TrimKeepsFirst | backend/Controllers/CategoryController.cs:155 | a first character that is not white space is still first after the trim |
| Slugs.TrimKeepsLast | backend/Controllers/CategoryController.cs:155 | a last character that is not white space is still last after the trim |
| Slugs.HyphenatedCharacters | backend/Controllers/CategoryController.cs:152-153 | after lower-casing and hyphenating, no space or capital is left |
| Slugs.GenerateSlug | backend/Controllers/CategoryController.cs:150-156 | a slug has no ' ', no '&', no upper-case ASCII letter, and no white space at either end |
| Slugs.SlugIdempotent | backend/Controllers/CategoryController.cs:150-156 | slug(slug(n)) == slug(n) |
| Slugs.LeadingSpaceBecomesHyphen | backend/Controllers/CategoryController.cs:152-155 | a leading space survives the trim as '-' |
| Slugs.TrailingSpaceBecomesHyphen | backend/Controllers/CategoryController.cs:152-155 | a trailing space survives the trim as '-' |
| Slugs.SlugIgnoresCase | backend/Controllers/TagController.cs:113 | names differing only in ASCII case give the same slug |
| Categories.Roots | backend/Controllers/CategoryController.cs:32 | exactly the categories without a parent |
| Categories.SubCategories | backend/Controllers/CategoryController.cs:39 | exactly the categories whose parent is the id |
| Categories.RootsInOrder | backend/Controllers/CategoryController.cs:32 | the roots are listed in table order, each as often as it is stored |
| Categories.SubCategoriesInOrder | backend/Controllers/CategoryController.cs:39 | the sub-categories are listed in table order, each as often as it is stored |
| Categories.ContentCount | backend/Controllers/CategoryController.cs:40 | at most the link count; positive exactly when some link names the category |
| Categories.Children | backend/Controllers/CategoryController.cs:41-47 | one child entry per sub-category, in order |
| Categories.ViewOf | backend/Controllers/CategoryController.cs:33-48 | fields copied; childCount and contentCount counted; children null exactly when not asked |
| Categories.GuardedDeleteKeepsParents | backend/Controllers/CategoryController.cs:139-145 | deleting a category with no sub-categories leaves every parent reference resolvable |
| Categories.CategoryController.constructor | backend/Controllers/CategoryController.cs:16-19 | stores the tables |
| Categories.CategoryController.GetAll | backend/Controllers/CategoryController.cs:21-52 | one entry per root category in table order, with counts; child lists only with includeChildren, each child the projection of the matching sub-category |
| Categories.CategoryController.Create | backend/Controllers/CategoryController.cs:79-104 | appends a row with Slug = GenerateSlug(Name) and CreatedAt = UpdatedAt = now |
| Categories.CategoryController.Update | backend/Controllers/CategoryController.cs:106-124 | NotFound for a missing id; otherwise Name, Slug, Description, parent and UpdatedAt overwritten |
| Categories.CategoryController.Delete | backend/Controllers/CategoryController.cs:126-148 | the response and the new table are exactly those of Deleted; ids stay unique |
| Categories.DeleteOutcome | backend/Controllers/CategoryController.cs:126-148 | NotFound exactly for a missing id; BadRequest with the refusal text, and no change, exactly while it has sub-categories or content; otherwise exactly that row removed, ids unique, no row left naming it as parent |
| Categories.DeleteLeaf | backend/Controllers/CategoryController.cs:139-145 | removing a row with no sub-categories keeps ids unique, drops its id, and leaves no row naming it as parent |
| Tags.LexLeTotal | backend/Controllers/TagController.cs:32 | the ordinal order relates any two names |
| Tags.LexLeTransitive | backend/Controllers/TagController.cs:32 | the ordinal order is transitive |
| Tags.NameLeTotal | backend/Controllers/TagController.cs:32 | the name order of the listing is a total preorder |
| Tags.Matching | backend/Controllers/TagController.cs:26-29 | with a non-empty search, exactly the tags whose name contains it; otherwise all |
| Tags.UsageCount | backend/Controllers/TagController.cs:38 | at most the link count; positive exactly when some link names the tag |
| Tags.TagController.constructor | backend/Controllers/TagController.cs:16-19 | stores the tables; only tag ids need be unique |
| Tags.TagController.GetAll | backend/Controllers/TagController.cs:21-43 | a permutation of the matching tags' views, ascending by name, each with its ContentTags count |
| Tags.TagController.Create | backend/Controllers/TagController.cs:66-94 | Ok with the first tag of that name, inserting nothing, exactly when the name is stored; otherwise a tag with Slug = GenerateSlug(Name) is appended; unique names stay unique |
| Tags.TagController.Delete | backend/Controllers/TagController.cs:96-109 | NotFound for a missing id, changing nothing; otherwise exactly that tag removed |
| MediaLibrary.Rejection | backend/Controllers/MediaController.cs:92-114 | the first failing check in order: no file or empty, over 10 MiB, type not allowed, no claim; none exactly when all pass |
| MediaLibrary.ExactLimitAccepted | backend/Controllers/MediaController.cs:98 | exactly 10 MiB passes; one byte more is refused as too large |
| MediaLibrary.BaseName | backend/Controllers/MediaController.cs:117 | the suffix after the last '/' |
| MediaLibrary.BaseNameAfterSlash | backend/Controllers/MediaController.cs:178 | the base name of dir + "/" + name is name |
| MediaLibrary.UploadedRow | backend/Controllers/MediaController.cs:117-136 | original name, "/uploads/" + guid + "_" + base name, content type, length, caller and now |
| MediaLibrary.StoredName | backend/Controllers/MediaController.cs:117 | starts with the Guid text and "_"; every '/' comes from the Guid text, so the client name adds no directory; a name without '/' is kept whole |
| MediaLibrary.DeleteFindsStoredFile | backend/Controllers/MediaController.cs:178 | the delete's base name of the stored path is the stored file name |
| MediaLibrary.Filtered | backend/Controllers/MediaController.cs:36-41 | with a non-empty type, exactly the rows whose FileType starts with it; otherwise all |
| MediaLibrary.UploadedDescTotal | backend/Controllers/MediaController.cs:43 | the upload-time order is a total preorder |
| MediaLibrary.Ordered | backend/Controllers/MediaController.cs:36-43 | a permutation of the filtered rows, newest first |
| MediaLibrary.CeilDiv | backend/Controllers/MediaController.cs:60 | the least q with q * d >= n |
| MediaLibrary.Offset | backend/Controllers/MediaController.cs:44 | zero on the first page; a whole number of pages, page - 1 of them |
| MediaLibrary.Page | backend/Controllers/MediaController.cs:42-45 | min(pageSize, rows left after the offset) rows; entry k is the ordered row at offset + k |
| MediaLibrary.ViewOf | backend/Controllers/MediaController.cs:46-57 | fields copied; uploadedBy is the uploader's username |
| MediaLibrary.MediaController.constructor | backend/Controllers/MediaController.cs:19-29 | stores the table |
| MediaLibrary.MediaController.GetAll | backend/Controllers/MediaController.cs:31-61 | total counts the filtered rows before paging; at most pageSize views of the page's rows, newest first; totalPages = ceiling of total / pageSize |
| MediaLibrary.MediaController.Upload | backend/Controllers/MediaController.cs:89-149 | a rejection inserts nothing; otherwise Created with the new row, which is appended |
| MediaLibrary.MediaController.Update | backend/Controllers/MediaController.cs:151-166 | NotFound for a missing id; otherwise only AltText and Description change |
| MediaLibrary.MediaController.Delete | backend/Controllers/MediaController.cs:168-188 | NotFound for a missing id; otherwise exactly that row removed |
| MediaLibrary.PageStartsInside | backend/Controllers/MediaController.cs:60 | the offset lies inside the rows exactly when page <= totalPages |
| MediaLibrary.PageNonEmptyIffInRange | backend/Controllers/MediaController.cs:42-60 | a page has entries exactly when page <= totalPages |
| Templates.Visible | backend/Controllers/TemplateController.cs:25-31 | includePrivate keeps all; otherwise exactly the public templates and the caller's own |
| Templates.VisibleTo | backend/Controllers/TemplateController.cs:30 | a public template is always visible; a caller with no id claim sees exactly the public ones |
| Templates.ViewCreatedDescTotal | backend/Controllers/TemplateController.cs:35 | the creation-time order is a total preorder |
| Templates.ViewOf | backend/Controllers/TemplateController.cs:36-44 | fields copied; createdBy is the creator's username |
| Templates.TemplateController.constructor | backend/Controllers/TemplateController.cs:17-20 | stores the table |
| Templates.TemplateController.GetAll | backend/Controllers/TemplateController.cs:22-48 | a permutation of the visible templates' views, newest first |
| Templates.TemplateController.Create | backend/Controllers/TemplateController.cs:74-103 | Unauthorized with no change and no claim; otherwise a row owned by the caller with CreatedAt = UpdatedAt = now |
| Templates.TemplateController.Update | backend/Controllers/TemplateController.cs:105-123 | NotFound for a missing id; otherwise Name, Description, TemplateBody, IsPublic and UpdatedAt overwritten, owner and CreatedAt kept, no ownership check |
| Templates.TemplateController.Delete | backend/Controllers/TemplateController.cs:125-138 | NotFound for a missing id; otherwise exactly that row removed |
| Templates.ListedAreVisible | backend/Controllers/TemplateController.cs:25-31 | without includePrivate every listed entry is a public or own template; with no caller only public ones |
| Templates.IncludePrivateListsAll | backend/Controllers/TemplateController.cs:28-31 | with includePrivate every stored template is listed |
| Auth.AuthService.constructor | backend/Services/AuthService.cs:17-21 | stores the hash function and the table |
| Auth.UsernameOf | backend/Controllers/ContentController.cs:33 | the username of a stored user with that id |
| Auth.AuthService.VerifyPassword | backend/Services/AuthService.cs:94-98 | true exactly when the password hashes to the stored hash |
| Auth.AuthService.Register | backend/Services/AuthService.cs:38-59 | a taken email gives null and no insert; a taken username is refused by the unique index; otherwise one user with the hash, role Editor by default |
| Auth.AuthService.Authenticate | backend/Services/AuthService.cs:23-36 | unknown email or wrong password: null and no change; otherwise only that user's LastLoginAt becomes now |
| Startup.ContainsNeedsRoom | backend/Program.cs:79 | an origin containing the host is at least as long as it |
| Startup.IsOriginAllowed | backend/Program.cs:67-83 | allowed exactly when the origin starts with one of the three prefixes or holds the public host at some position |
| Common.ContainsIffOccurs | backend/Program.cs:79 | ordinal Contains holds exactly when the text occurs at some position |
| Startup.PrefixedOriginsAllowed | backend/Program.cs:67-83 | every origin on one of the three prefixes is allowed, whatever follows |
| Startup.ShortOrigin | backend/Program.cs:67-83 | an origin shorter than the public host is allowed exactly when it is on a prefix |
| Startup.PortlessOriginsRefused | backend/Program.cs:70-72 | the three addresses without the trailing ':' are refused |
| Startup.PublicHostAnywhereAllowed | backend/Program.cs:79 | any origin with the public host anywhere in it is allowed |
| Startup.SelectToken | backend/Program.cs:46-54 | the token changes only to a non-empty query token; it does whenever the path is segment-prefixed by the hub path; off that path it is kept |
| Startup.HubPathsTakeQueryToken | backend/Program.cs:50 | the hub path and every path below it take the query token |
| Startup.HubPathIgnoresCase | backend/Program.cs:50 | the segment test ignores letter case |
| Startup.LongerSegmentKeepsToken | backend/Program.cs:50 | "/collaborationHubs" and other paths keep their token |
| PhpExport.ConvertToMarkdown | php-server/src/Controllers/ContentController.php:239-251 | the fixed header with title, author and date, then the tag-stripped body |
| PhpExport.FirstLine | php-server/src/Controllers/ContentController.php:241 | a prefix with no line break |
| PhpExport.FirstLineOf | php-server/src/Controllers/ContentController.php:241 | the first line of line + "\n" + rest is line |
| PhpExport.MarkdownTitleLine | php-server/src/Controllers/ContentController.php:241 | for a one-line title, the first Markdown line is "# " + title |
| PhpExport.MarkdownEndsWithBody | php-server/src/Controllers/ContentController.php:248-251 | the Markdown ends with the stripped body after the rule |
| PhpExport.FormatOf | php-server/src/Controllers/ContentController.php:128-142 | html only for "html", markdown only for "markdown", JSON otherwise |
| PhpExport.MediaTypesDistinct | php-server/src/Controllers/ContentController.php:128-142 | the three formats have three different content types |
| PhpExport.MediaType | php-server/src/Controllers/ContentController.php:128-142 | only JSON is served as application/json |
| PhpExport.Disposition | php-server/src/Controllers/ContentController.php:147 | an attachment whose quoted file name is the title, a dot and the format as requested |
| PhpExport.ContentController.GenerateHtml | php-server/src/Controllers/ContentController.php:195-236 | the page starts with the head, the title sits unescaped right after it, the body unescaped just before the closing text, which ends the page |
| PhpExport.ContentController.constructor | php-server/src/Controllers/ContentController.php:195-236 | the HTML template pieces are the heredoc's text between the interpolations |
| PhpExport.ContentController.Fetch | php-server/src/Controllers/ContentController.php:102-118 | a row exactly when the id is stored, with its author's username |
| PhpExport.ContentController.FetchPublished | php-server/src/Controllers/ContentController.php:58-71 | a row exactly when stored and published |
| PhpExport.ContentController.ExportContent | php-server/src/Controllers/ContentController.php:95-155 | 404 for a missing id; otherwise status 200, the rendered body, the format's content type and the attachment disposition |
| PhpExport.ContentController.ContentAsHtml | php-server/src/Controllers/ContentController.php:53-93 | 404 unless published; otherwise the generated HTML as text/html |
| PhpExport.UnknownFormatFallsBackToJson | php-server/src/Controllers/ContentController.php:147 | any other format gives JSON, yet the file name still uses the raw format |
| PhpExport.MissingFormatIsJson | php-server/src/Controllers/ContentController.php:100 | no format means JSON with the file name Title.json |
| PhpExport.ExportNotFound | php-server/src/Controllers/ContentController.php:117-126 | 404 exactly when no content has the id or its author row is missing, which the inner join drops |
| PhpExport.HtmlViewOnlyPublished | php-server/src/Controllers/ContentController.php:67-79 | the HTML view answers 200 exactly for published content |

## Left out

- SignalR transport, async execution and concurrency: the hub is a sequential trace of
  calls. Group membership is an explicit map, and broadcasts are appended to an outbox.
- EF Core, MySQL and PDO: tables are sequences. A query without an ORDER BY returns table
  order. MySQL collations are not modelled, so comparisons are ordinal.
- Foreign functions are parameters or fields: the clock, `Guid.NewGuid`, `Guid.Parse`,
  `Guid.ToString`, `string.GetHashCode`, SHA-256 plus Base64, `strip_tags`, `json_encode`
  and PHP date formatting.
- Foreign keys become preconditions: each content's author, each media uploader and each
  template creator is assumed to be a stored user.
- The EF convention keys on `CollaborationSession` are not enforced:
  - `Collaboration.Hub.JoinDocument` with a document or user id that no row has fails
    at `SaveChanges` in the source. The model appends the row anyway and announces the
    user as "Unknown".
  - Deleting a content does not cascade to its collaboration sessions.
- `Collaboration.Hub.JoinDocument`: one `now` serves the whole request.
- `PresenceStore.CollaborationStore.Receive`: events are accepted at any time. The real
  handlers are attached before `start`, so events that arrive before `set({connection})`
  also update the roster.
- Cursor positions from the client are unbounded integers. The hub's parameter is a
  32-bit integer.
- JWT: `GenerateJwtToken` and the bearer validation set-up in `Program.cs` are library
  cryptography.
- Content endpoints `Schedule`, `Preview` and `GetVersions` are not modelled. `Schedule`
  uses a property the content model does not declare.
- `GetById` of categories, tags, media and templates is not modelled. It is the same
  lookup-or-NotFound as the other reads.
- `ParentCategoryId` is neither checked against the table nor checked for cycles. The
  source does neither.
- Deleting a tag does not cascade to `ContentTags`.
- Category-to-content links are a separate table.
- The tag, category, media and template tables are standalone, as the database context
  does not declare them.
- String shape is simplified:
  - `ToLower` is ASCII only.
  - `OrdinalIgnoreCase` path comparison is ASCII case-insensitivity.
  - `StartsWith` and `Contains` are ordinal rather than culture-sensitive.
  - `Path.GetFileName` splits on '/' only.
  - A multi-valued `access_token` query (joined by `StringValues`) is a single optional
    string.
- `MediaLibrary.MediaController.GetAll` has three requirements the source does not
  check: `page >= 1`, `pageSize >= 1`, and an offset that fits a 32-bit int.
  - Without them the C# `(page - 1) * pageSize` can wrap, or divide by zero.
  - `Math.Ceiling` over a double becomes integer ceiling division, which is exact for
    32-bit operands.
- File I/O of media: the `FileStream` write, the physical delete, and all of the PHP
  media controller.
- The text of the stored file name's Guid is a parameter, separate from the row id.
- `Dashboard.GetStats`: `DateTime.AddHours(-24)` underflow near `DateTime.MinValue` is
  not modelled.
- PHP loose typing is not modelled:
  - a `format` that is not a string;
  - `==` comparisons between types;
  - the 500 paths, where the handlers catch any `\Exception`.
- The PHP route id is a Guid. A malformed id matches no row and gives the same 404.
- `getPublishedContent` and `getContentByTag` in the PHP controller are not modelled.
  They are plain SQL listings.
- Front-end pages, routing, axios interceptors and configuration are not modelled.
