# Markdown blog: verified model of the backend handlers and client stores

This project models the core of a markdown blog in Dafny:

- the Convex query and mutation handlers behind the blog: posts, view counts, reactions, comments, highlights, share counters and the newsletter;
- the post search endpoint `GET /api/posts`;
- the two browser-side stores, page tracking and the colour theme.

Each Convex table is a `Db.Table`. A table is an ordered sequence of rows, each with an id, plus the next free id. Ids increase in insertion order, so the ascending order of an index is the order of the rows.

Queries are functions over the rows. Mutations are methods that change the table. The ensures of each mutation ties the new rows to a function of the old ones. Lemmas about those functions state what the handlers promise, for example:

- a sync leaves exactly the incoming slugs stored;
- a toggle flips a reaction and touches no other;
- a share adds one to its platform and one to `total`;
- a second subscription with the same address in another case is refused;
- heartbeats for one path are at least five seconds apart.

Code that loops in the source is modelled as a method with a loop, proved against a function. This covers `syncPosts`, the tallies of `getReactions` and `getShareCounts`, and the map built from the stored posts.

The stores are classes. Their fields hold what the JavaScript keeps in module variables, local storage and the document.

The newsletter checks the e-mail pattern on the raw input and only then lowercases and trims it. So an address with a trailing space is refused as invalid; it is not stored under its trimmed form. `Newsletter.TrailingSpaceRefused` states this.

## Model

| member | source | states |
|---|---|---|
| Posts.GetAllPosts | src/convex/posts.ts:22-44 | the public listing has one entry per stored published post |
| Posts.AllPostsOrdered | src/convex/posts.ts:22-44 | `getAllPosts` lists posts newest first: dates never increase along the result |
| Posts.AllPostsSound | src/convex/posts.ts:22-44 | every listed summary is the summary of a stored published post |
| Posts.AllPostsComplete | src/convex/posts.ts:22-44 | every stored published post is listed |
| StableSort.SortDesc | src/convex/posts.ts:28-30 | the date sort orders by non-increasing key, is a permutation of its input and keeps each key group in input order |
| StableSort.SortDescMembers | src/convex/posts.ts:28-30 | the sorted list has the input's length and exactly its elements |
| StableSort.SortDescKeepsOrder | src/convex/posts.ts:28-30 | posts with equal dates stay in their previous (ascending id) order |
| Posts.GetPostBySlug | src/convex/posts.ts:70-91 | the answer is a stored published post with that slug; with unique slugs it is present exactly when such a post exists; none for an unknown slug |
| Posts.BySlugHidesDrafts | src/convex/posts.ts:70-91 | the public lookup is the preview lookup with drafts hidden |
| Posts.GetPostBySlugPreview | src/convex/posts.ts:367-388 | the preview answers the stored post with that slug, published or not, and none exactly when no post has that slug |
| Posts.GetAllPostsWithDrafts | src/convex/posts.ts:408-421 | the draft listing has one entry per stored post |
| Posts.DraftsOrdered | src/convex/posts.ts:408-421 | `getAllPostsWithDrafts` lists all posts newest first |
| Posts.DraftsExact | src/convex/posts.ts:408-421 | the draft listing holds exactly the summaries of all stored posts |
| Posts.Overlap | src/convex/posts.ts:325-328 | the score of a candidate counts its tags found among the current post's tags; it is at most the candidate's tag count and 0 exactly when no tag is shared |
| Posts.PositiveMembers | src/convex/posts.ts:330 | the score filter keeps exactly the candidates with a positive score |
| Posts.PositiveOrdered | src/convex/posts.ts:330 | the score filter keeps the candidates' order |
| Posts.GetRelatedPosts | src/convex/posts.ts:303-341 | no related posts when the current post is missing or has no tags; never more than the limit (3 by default) |
| Posts.RankedSound | src/convex/posts.ts:316-330 | every ranked candidate is another published post sharing a tag, scored by its overlap |
| Posts.RankedComplete | src/convex/posts.ts:316-330 | every other published post sharing a tag is ranked |
| Posts.RankedScores | src/convex/posts.ts:322-330 | each ranked entry carries its own overlap score |
| Posts.RelatedPostsSound | src/convex/posts.ts:303-341 | every related post is another published post sharing a tag with the current one |
| Posts.RelatedPostsOrdered | src/convex/posts.ts:331-341 | related posts come by non-increasing overlap |
| Posts.RelatedPostsComplete | src/convex/posts.ts:316-332 | an eligible post left out means the result is full and every listed post scores at least as high |
| Posts.RelatedPostsStable | src/convex/posts.ts:316-331 | posts with equal overlap keep the ascending id order of the query |
| Posts.FromInput | src/convex/posts.ts:135-152 | a stored post keeps the incoming slug and records the sync time |
| PostSync.IndexBySlug | src/convex/posts.ts:123-127 | the loop building the slug map yields the map built front to back, so the last stored row wins |
| PostSync.BySlugEntries | src/convex/posts.ts:123-127 | the slug map has one key per stored slug, each mapped to a stored row with that slug |
| PostSync.BySlugUnique | src/convex/posts.ts:123-127 | with unique stored slugs, every stored row is the map's entry for its slug |
| PostSync.UpsertOne | src/convex/posts.ts:131-154 | one upsert step patches the map's entry for the slug, or inserts a new row and counts it as created |
| PostSync.UpsertAll | src/convex/posts.ts:130-155 | after the upsert loop the snapshot is refreshed by the last incoming post of each slug, new slugs are appended, and created plus updated is the number of incoming posts |
| PostSync.DeleteStale | src/convex/posts.ts:158-163 | the deletion loop removes exactly the snapshot rows whose slug is not incoming and counts them |
| PostSync.SyncPosts | src/convex/posts.ts:96-167 | the table after `syncPosts` is the synced table, with counters as the loops count them |
| PostSync.SyncPostsPublic | src/convex/posts.ts:170-241 | the public sync behaves as `syncPosts` |
| PostSync.LastWithFound | src/convex/posts.ts:130-155 | some incoming post has a slug exactly when the last one with that slug exists |
| PostSync.LastWithIsLast | src/convex/posts.ts:130-155 | the post whose patch is applied last is an incoming post that no later one shares a slug with |
| PostSync.Refreshed | src/convex/posts.ts:132-140 | patching keeps every snapshot row's id and slug |
| PostSync.CreatedIds | src/convex/posts.ts:142-152 | inserted rows get consecutive fresh ids |
| PostSync.CreatedSound | src/convex/posts.ts:142-152 | every inserted row holds an incoming post whose slug was not stored |
| PostSync.CreatedComplete | src/convex/posts.ts:142-152 | every incoming post with an unstored slug is inserted |
| PostSync.CreatedCount | src/convex/posts.ts:118-155 | `created` is the number of incoming posts whose slug the table lacked |
| PostSync.CountNewDistinct | src/convex/posts.ts:118-155 | with distinct incoming slugs, `created` is the number of new slugs |
| PostSync.StaleCountDistinct | src/convex/posts.ts:158-163 | with unique stored slugs, `deleted` is the number of stored slugs not incoming |
| PostSync.SyncedSlugsIncoming | src/convex/posts.ts:96-167 | every slug stored after a sync is incoming |
| PostSync.SyncedSlugsComplete | src/convex/posts.ts:96-167 | every incoming slug is stored after a sync |
| PostSync.SyncSlugs | src/convex/posts.ts:96-167 | after a sync the stored slugs are exactly the incoming slugs |
| PostSync.SyncRefreshes | src/convex/posts.ts:130-155 | with unique stored slugs, a stored post whose slug is incoming keeps its id and holds the last incoming post with that slug |
| PostSync.SyncKeepsCreated | src/convex/posts.ts:142-152 | a new incoming post is stored after the sync under a fresh id |
| PostSync.SyncAgainChangesNoSlugs | src/convex/posts.ts:96-167 | syncing the same posts again creates nothing and deletes nothing |
| ViewCounts.GetViewCount | src/convex/posts.ts:277-282 | an unseen slug has count 0; otherwise the count is that of the first row stored for the slug, and a positive count is stored for that slug |
| ViewCounts.IncrementViewCount | src/convex/posts.ts:250-264 | the table after the mutation patches the first row of the slug or inserts one with count 1 |
| ViewCounts.ViewCountIncrements | src/convex/posts.ts:250-264 | the slug's view count rises by exactly one and every other slug's count is unchanged |
| Reactions.GetReactions | src/convex/reactions.ts:20-35 | one entry per allowed emoji, in list order, each with the number of the post's reactions with that emoji |
| Reactions.GetUserReactions | src/convex/reactions.ts:49-56 | one emoji per reaction of the session on the post |
| Reactions.UserReactionsExact | src/convex/reactions.ts:49-56 | the listed emojis are exactly those of the session's reactions on the post |
| Reactions.ToggleReaction | src/convex/reactions.ts:70-97 | an emoji outside the allow list raises "Invalid emoji" and changes nothing; otherwise the first matching reaction is deleted (answer false) or a new one inserted (answer true) |
| Reactions.ToggleFlips | src/convex/reactions.ts:75-97 | with at most one copy, a toggle flips whether the reaction is present |
| Reactions.ToggleOthersUntouched | src/convex/reactions.ts:75-97 | a toggle leaves every other (session, post, emoji) reaction as it was |
| Reactions.ToggleKeepsAtMostOne | src/convex/reactions.ts:75-97 | toggling keeps at most one reaction per session, post and emoji |
| Reactions.ToggleWellFormed | src/convex/reactions.ts:84-97 | the table keeps increasing fresh ids through a toggle |
| Reactions.ToggleTwice | src/convex/reactions.ts:75-97 | two toggles answer opposite values and restore the number of rows of every key |
| Comments.GetComments | src/convex/comments.ts:21-33 | one entry per comment on the post, none marked as the caller's own |
| Comments.GetCommentsExact | src/convex/comments.ts:21-33 | the listing holds exactly the post's comments, in ascending id order |
| Comments.CommentError | src/convex/comments.ts:50-60 | the errors in source order: required when author or content is blank, author too long over 50, comment too long over 2000, none otherwise |
| Comments.AddComment | src/convex/comments.ts:48-71 | an invalid comment raises that error and changes nothing; a valid one is appended with trimmed author and content under a fresh id |
| Comments.DeleteComment | src/convex/comments.ts:83-97 | a missing comment answers false; another session's comment raises an error; one's own comment is deleted and true answered |
| Comments.DeleteListing | src/convex/comments.ts:95 | after deleting a comment every other post's listing is unchanged, and its own post's listing is one shorter and no longer shows it |
| Comments.AddThenDelete | src/convex/comments.ts:62-96 | deleting a comment just added restores the table |
| Highlights.GetHighlights | src/convex/highlights.ts:22-37 | one entry per highlight on the post |
| Highlights.GetHighlightsExact | src/convex/highlights.ts:22-37 | the listing holds exactly the post's highlights, in ascending id order |
| Highlights.HighlightError | src/convex/highlights.ts:56-58 | the error is raised exactly when the text or the comment is blank |
| Highlights.StoredAuthor | src/convex/highlights.ts:64 | a blank author is stored as "Anonymous", otherwise trimmed; the stored author is never blank |
| Highlights.AddHighlight | src/convex/highlights.ts:55-71 | a blank text or comment raises the error and changes nothing; otherwise the trimmed highlight is appended under a fresh id |
| Highlights.DeleteHighlight | src/convex/highlights.ts:84-91 | true exactly when the highlight exists and belongs to the session, and then it alone is deleted; otherwise nothing changes |
| Highlights.OwnerDeleteRemovesOnly | src/convex/highlights.ts:89 | a delete removes that highlight and keeps every other |
| Shares.Count | src/convex/shares.ts:44-49 | a key's count is the first matching row's count, or 0 when there is none |
| Shares.BumpRow | src/convex/shares.ts:44-59 | one counter update patches the key's row to count + 1 or inserts it with count 1 |
| Shares.IncrementShare | src/convex/shares.ts:42-80 | the table after the mutation is the platform counter bumped and then the `total` counter bumped |
| Shares.BumpCounts | src/convex/shares.ts:44-59 | a bump adds one to its key's count and changes no other key's count |
| Shares.BumpWellFormed | src/convex/shares.ts:44-59 | a bump keeps increasing fresh ids |
| Shares.ShareIncrements | src/convex/shares.ts:42-80 | a share adds one to the platform and one to `total` (two when the platform is `total`) and changes no other count |
| Shares.ShareKeysUnique | src/convex/shares.ts:42-80 | a share keeps one row per (post, platform) |
| Shares.ShareKeepsTotal | src/convex/shares.ts:42-80 | sharing on a platform other than `total` keeps `total` equal to the sum of the post's platform counts |
| Shares.LastCountIsLast | src/convex/shares.ts:22-28 | the reported count of a platform is that of a row for it with no later row for it, or 0 when the listing has none |
| Shares.GetShareCounts | src/convex/shares.ts:17-29 | the loop reports, for total, copy and twitter, the last listed count of that platform |
| Shares.ShareCountsAgree | src/convex/shares.ts:7-49 | with one row per key, the reported count equals the counter that `incrementShare` bumps |
| Newsletter.IndexOf | src/convex/newsletter.ts:17 | the first position of a character, or none exactly when it is absent |
| Newsletter.ScanMatchesPattern | src/convex/newsletter.ts:17-18 | the left-to-right scan accepts exactly the strings the e-mail pattern matches |
| Newsletter.ValidEmail | src/convex/newsletter.ts:17-18 | the e-mail test holds exactly for the strings made of a non-empty run without whitespace or `@`, an `@`, such a run, a `.` and such a run |
| Newsletter.Normalize | src/convex/newsletter.ts:22 | the stored address is no longer than the input, has no capital letters and neither starts nor ends with whitespace |
| Newsletter.GetSubscriberCount | src/convex/newsletter.ts:52-56 | the count is at most the number of rows and is 0 exactly when no subscriber is confirmed |
| Newsletter.NormalizeValid | src/convex/newsletter.ts:17-22 | for an accepted address the trim after lowercasing changes nothing |
| Newsletter.TrailingSpaceRefused | src/convex/newsletter.ts:17-20 | an address followed by whitespace is refused as invalid |
| Newsletter.ValidEmailCaseBlind | src/convex/newsletter.ts:17-22 | validity does not depend on letter case |
| Newsletter.Subscribe | src/convex/newsletter.ts:15-42 | the reply and the new table are those of the subscription rule; a refusal changes nothing |
| Newsletter.OutcomeCases | src/convex/newsletter.ts:17-41 | invalid exactly when the pattern fails; already subscribed exactly when it matches and the normalised address is stored; success otherwise |
| Newsletter.KnownAddress | src/convex/newsletter.ts:25-30 | the index lookup finds a subscriber exactly when one has that address |
| Newsletter.SubscribeKeepsUnique | src/convex/newsletter.ts:25-41 | subscribing keeps at most one subscriber per address |
| Newsletter.ResubscribeAnyCase | src/convex/newsletter.ts:22-32 | after a successful subscription, the same address in any letter case is refused as already subscribed and changes nothing |
| Newsletter.SubscriberCountRises | src/convex/newsletter.ts:35-56 | a successful subscription raises the confirmed count by one, a refusal leaves it |
| PageTracking.TemplateIsLiteral | src/lib/stores/pageTracking.ts:8 | the modelled template is the version-4 UUID template |
| PageTracking.VariantNibble | src/lib/stores/pageTracking.ts:10 | the `y` digit is 8 to b and keeps the low two bits of the draw |
| PageTracking.GeneratedIsSessionId | src/lib/stores/pageTracking.ts:7-13 | every generated id is 36 lowercase hex digits and dashes in UUID v4 form |
| PageTracking.HexValue | src/lib/stores/pageTracking.ts:11 | each hex digit is the text of exactly one nibble |
| PageTracking.SessionIdGenerated | src/lib/stores/pageTracking.ts:7-13 | every id of that form is generated by some draws |
| PageTracking.SessionStore.constructor | src/lib/stores/pageTracking.ts:15-26 | the store holds the browser flag and the stored value |
| PageTracking.SessionStore.GetSessionId | src/lib/stores/pageTracking.ts:15-26 | answers the stored id when there is one, else a fresh one, which the browser stores |
| PageTracking.SessionIdStable | src/lib/stores/pageTracking.ts:15-26 | in the browser, later calls answer the first call's id and store nothing new |
| PageTracking.GetPageType | src/lib/stores/pageTracking.ts:28-36 | "home" exactly for "/" and "", "stats" exactly for "/stats", "page" otherwise |
| PageTracking.Heartbeat.constructor | src/lib/stores/pageTracking.ts:39-42 | the heartbeat state starts idle, at time 0, with no path and no interval |
| PageTracking.Heartbeat.Settle | src/lib/stores/pageTracking.ts:65-67 | the `finally` clears the pending flag and nothing else |
| PageTracking.Tracker.constructor | src/lib/stores/pageTracking.ts:44-48 | a new tracker has recorded no path, no view and no heartbeat |
| PageTracking.Tracker.SendHeartbeat | src/lib/stores/pageTracking.ts:50-68 | a heartbeat is sent exactly when none is pending and the path is new or the debounce has elapsed; the state then records its time and path |
| PageTracking.Tracker.Track | src/lib/stores/pageTracking.ts:70-97 | a page view is recorded exactly when the path changed; a heartbeat is attempted; the interval is replaced by a 30 s timer for the path |
| PageTracking.Tracker.Tick | src/lib/stores/pageTracking.ts:94-96 | a tick of the interval this tracker armed attempts a heartbeat for the timer's path, may store a fresh session id, and records no page view |
| PageTracking.GenerateSessionId | src/lib/stores/pageTracking.ts:7-13 | a session id has 36 characters, dashes at positions 8, 13, 18 and 23 and the version digit `4` at position 14 |
| PageTracking.Tracker.Cleanup | src/lib/stores/pageTracking.ts:99-104 | the interval is cleared and the heartbeat state kept |
| PageTracking.FirstFireSpaced | src/lib/stores/pageTracking.ts:54-59 | a heartbeat for the last path is sent at least 5 s after the previous one |
| PageTracking.HeartbeatsSpaced | src/lib/stores/pageTracking.ts:50-68 | consecutive heartbeats for the same path are at least 5 s apart |
| PageTracking.OneInFlight | src/lib/stores/pageTracking.ts:54-67 | until a heartbeat settles, at most one is sent |
| ThemeStore.Parse | src/lib/stores/theme.ts:21 | only the four theme names are accepted, each as the theme it names |
| ThemeStore.ParseName | src/lib/stores/theme.ts:4 | every theme's name reads back as that theme |
| ThemeStore.ThemeColor | src/lib/stores/theme.ts:9-14 | each theme colour is a `#` followed by six lowercase hexadecimal digits |
| ThemeStore.GetInitialTheme | src/lib/stores/theme.ts:16-28 | the saved theme when in the browser and the saved value names a theme; "tan" otherwise, also when storage throws |
| ThemeStore.IndexOf | src/lib/stores/theme.ts:49-50 | the position of a theme in the toggle order |
| ThemeStore.Next | src/lib/stores/theme.ts:49-52 | toggling always changes the theme |
| ThemeStore.NextSteps | src/lib/stores/theme.ts:49-52 | toggling goes dark, light, tan, cloud and back to dark |
| ThemeStore.ToggleCycle | src/lib/stores/theme.ts:47-65 | four toggles return to the start and visit every theme once |
| ThemeStore.ReloadKeepsTheme | src/lib/stores/theme.ts:16-28 | a reload after storing a theme starts from that theme |
| ThemeStore.Store.constructor | src/lib/stores/theme.ts:30-31 | the store starts with the initial theme |
| ThemeStore.Store.Apply | src/lib/stores/theme.ts:37-45 | in the browser, storage, `data-theme` and the meta colour (when present) show the theme; outside it nothing changes |
| ThemeStore.Store.Set | src/lib/stores/theme.ts:35-46 | the store holds the theme and, in the browser, storage and the document reflect it |
| ThemeStore.Store.Toggle | src/lib/stores/theme.ts:47-65 | the store moves to the next theme and, in the browser, storage and the document reflect it |
| Search.Filter | src/routes/api/posts/+server.ts:16-21 | the filter never lengthens the list |
| Search.SearchPosts | src/routes/api/posts/+server.ts:8-25 | the endpoint returns at most the fetched posts and only posts it fetched |
| Search.NoQueryKeepsAll | src/routes/api/posts/+server.ts:12-15 | without a query, or with an empty one, all posts are returned |
| Search.FilterExact | src/routes/api/posts/+server.ts:16-21 | the filter keeps exactly the posts whose lowercased title, description or some tag contains the query |
| Search.FilterSubsequence | src/routes/api/posts/+server.ts:16-21 | the filter keeps the posts' order |
| Search.SearchExact | src/routes/api/posts/+server.ts:12-21 | with a query, the result is an order-keeping selection of exactly the matching posts |
| Search.QueryCaseBlind | src/routes/api/posts/+server.ts:12 | queries equal up to letter case give the same result |
| Search.FieldsCaseBlind | src/routes/api/posts/+server.ts:18-20 | posts equal up to letter case match the same queries |
| Text.Trim | src/convex/comments.ts:64-65 | `trim` removes leading and trailing whitespace only, leaving no whitespace at either end |
| Text.ToLower | src/routes/api/posts/+server.ts:12 | lowercasing keeps the length, turns each capital A-Z into its small letter, keeps every other character and leaves no capital |
| Text.ToLowerIdempotent | src/routes/api/posts/+server.ts:12 | lowercasing twice is lowercasing once |
| Text.Includes | src/routes/api/posts/+server.ts:18 | `includes` holds exactly when the needle occurs at some position |

## Left out

- The Convex runtime is not modelled: argument validators, generated ids, `_creationTime`, schema indexes and return validators. A table is a sequence of rows, and an index query is a filter over it in id order.
- Concurrency and transaction isolation are not modelled. Each handler runs as one sequential step. The two counter updates of `incrementShare` are one step.
- Dates are abstract integers. Parsing the post date strings and `Date.now()` are left out: the current time is a parameter.
- `toLowerCase` is modelled for ASCII letters only, and string lengths count code points rather than UTF-16 units.
- `Math.random` is a parameter, `random`, that gives one draw per position of the id template.
- `setInterval`, `clearInterval` and the promise callbacks are not run. The interval is a field; a timer firing is the explicit method `Tick`; a heartbeat settling is `Heartbeat.Settle`. A heartbeat or page-view call that fails is not modelled, since the source swallows the error.
- Local storage and the document are fields of the store classes. Exceptions from local storage are modelled only where the source catches them, in `getInitialTheme`.
- The `ConvexHttpClient` call of the search endpoint is not modelled: the posts it fetches are an input.
- `src/routes/rss.xml/+server.ts`, `svelte.config.js` and `vite.config.ts` are not part of this model.
- A negative or fractional `limit` in `getRelatedPosts` is not modelled: the limit is a natural number.
- Posts.GetRelatedPosts: its own ensures gives only the emptiness cases and the length bound. Membership, order, completeness and tie order are the lemmas `RelatedPostsSound`, `RelatedPostsOrdered`, `RelatedPostsComplete` and `RelatedPostsStable`.
- Reactions.GetReactions: object keys such as `constructor` or `__proto__` are not modelled. An emoji is counted only under its own key, and all allowed emojis are plain keys.
- Shares.ShareCountsAgree: it is stated only when each (post, platform) pair has at most one row. `incrementShare` keeps that invariant (`ShareKeysUnique`), but the sequential model does not capture duplicates created by concurrent first shares.
- PostSync.SyncRefreshes: stated only for tables with unique stored slugs. The slug map is built once before the loop (posts.ts:123-127), so a sync that receives the same new slug twice inserts two rows with it; a later sync then patches only the last of them and leaves the earlier one with its old content.
- PostSync.SyncSlugs: duplicate slugs among the incoming posts are modelled as the code handles them: each patches or inserts in turn. The lemmas about counters as set sizes require distinct slugs.
- Text.ToLower: non-ASCII case mappings, including those that change the length, are not modelled.
