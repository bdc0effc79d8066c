# Sakai message-forum web service and user timezone cache, modelled in Dafny

This project models three rules from two parts of the Sakai learning-management system.

- **`MessageForums.addMessage`** (`forums.dfy`, `add_message_properties.dfy`, `selection.dfy`).
  It picks a forum by title. If the site has no forums at all, it first creates a default area (when none exists for the site and the discussion type), a forum and a topic. It then picks a topic by title and appends a message. The message replies to the topic's latest message. The call returns one of a fixed set of status strings.
- **`MessageForums.getForumsInSite`** (`forum_listing.dfy`).
  It lists a site's forums and their topics as a document tree with totals. When the site is missing or the caller lacks permission, it returns a fixed error document.
- **`UserTimeServiceImpl`** (`user_time.dfy`).
  It resolves the session user's timezone id through a read-through cache in front of the preferences store. It memoises parsed zones by id, and it can invalidate one user's cache entry.

The forum, area and message managers are modelled as one in-memory `Store`:
- sites by context id, each with its forums tool flag and forum list;
- areas keyed by (context, type id);
- a counter whose next values become the ids of what is saved. Those ids are unused as long as every id in the store lies below the counter. `ForumIds.IdsBelow` states that invariant, and `addMessage` keeps it.

A null list returned by a manager is modelled as `None`. Every operation is a pure function that returns the new state.

Selection rule. For both forums and topics, the Java loop overwrites its "selected" variable on every exact title match, and overwrites its "any" variable on every element. So it picks the **last** exact match in iteration order, not the first, otherwise the last element, otherwise nothing. The model follows the code here.

## Model

| member | source | states |
|---|---|---|
| Selection.LastMatch | webservices/cxf/src/java/org/sakaiproject/webservices/MessageForums.java:112-116 | the index returned holds the wanted title and no later element does; None exactly when no element has the title |
| Selection.Select | webservices/cxf/src/java/org/sakaiproject/webservices/MessageForums.java:112-118 | None iff the list is empty; when some title matches, the last matching index; otherwise the last index |
| Selection.ScanSelect | webservices/cxf/src/java/org/sakaiproject/webservices/MessageForums.java:112-118 | the Java loop (overwrite "any" always, "selected" on a match, then fall back) computes exactly the selection rule |
| Forums.ParseStatus | webservices/cxf/src/java/org/sakaiproject/webservices/MessageForums.java:96-98 | a string read back as an outcome is exactly that outcome's returned text |
| Forums.StatusRoundTrip | webservices/cxf/src/java/org/sakaiproject/webservices/MessageForums.java:96-201 | every outcome string of addMessage reads back as the outcome that produced it, so the strings are pairwise distinct; the strings themselves are held by `Status.Text` (the literals of lines 97, 162, 174, 196 and 201) |
| Forums.EnsureArea | webservices/cxf/src/java/org/sakaiproject/webservices/MessageForums.java:121-136 | an existing area for the key is kept as is; otherwise one is added with the default settings; no other area changes |
| Forums.CreateDefaultForum | webservices/cxf/src/java/org/sakaiproject/webservices/MessageForums.java:119-152 | afterwards the site lists exactly the one created forum, and the area for (context, type) exists; other sites are unchanged; the forum takes the counter's value as its id, the topic the next one, and the counter moves past both |
| Forums.PutTopic | webservices/cxf/src/java/org/sakaiproject/webservices/MessageForums.java:191-195 | saving a topic replaces that topic only: every other site, forum, topic and area is unchanged |
| Forums.NewMessage | webservices/cxf/src/java/org/sakaiproject/webservices/MessageForums.java:176-194 | the message has the given title, body and author and belongs to the topic; it is approved, not deleted and not draft; it replies to the topic's last message iff the topic has messages |
| Forums.AddMessage | webservices/cxf/src/java/org/sakaiproject/webservices/MessageForums.java:91-201 | a missing site or a null forum list gives Failure (a null topic collection or a null topic draft flag in the selected forum does too: `NullTopicsGiveFailure`, `NullTopicDraftGivesFailure`); a site without the forums tool gives the tool-not-found text; any outcome other than Success leaves the store unchanged; "No forums found" never happens |
| AddMessageProperties.ExistingForumsAreReused | webservices/cxf/src/java/org/sakaiproject/webservices/MessageForums.java:112-119 | with forums present, the create branch does not run: no area is created and the site keeps the same forums with the same titles |
| AddMessageProperties.EmptySiteCreatesForumAndTopic | webservices/cxf/src/java/org/sakaiproject/webservices/MessageForums.java:119-159 | with an empty forum list, the existing area is reused or a default one is created; the site then has one forum (requested title, createdBy user, not draft, not moderated, not postFirst) with one topic (requested title, createdBy user) holding the new message, which has no reply link; the site keeps its forums tool and every other site is unchanged |
| AddMessageProperties.NoTopicIffSelectedForumIsEmpty | webservices/cxf/src/java/org/sakaiproject/webservices/MessageForums.java:164-174 | the outcome is "No topic" iff the selected forum's topic collection is empty |
| AddMessageProperties.MessageIsAppendedToSelectedTopic | webservices/cxf/src/java/org/sakaiproject/webservices/MessageForums.java:176-196 | the outcome is Success; the selected topic keeps its messages and gains one message at the end, with the request's fields and a reply link to the previous last message; nothing else changes: every other site, forum, topic and area stays, the site keeps its forums tool, and the counter moves on by one |
| AddMessageProperties.TopicDraftFlagsDoNotSteerPosting | webservices/cxf/src/java/org/sakaiproject/webservices/MessageForums.java:164-173 | changing the topics' draft flags, with null flags kept null, changes neither the selected topic nor the outcome |
| AddMessageProperties.NullTopicsGiveFailure | webservices/cxf/src/java/org/sakaiproject/webservices/MessageForums.java:164-201 | a null topic collection in the selected forum makes the topic loop throw, so the outcome is Failure and nothing is saved |
| AddMessageProperties.NullTopicDraftGivesFailure | webservices/cxf/src/java/org/sakaiproject/webservices/MessageForums.java:164-201 | a null draft flag on any topic of the selected forum makes the draft test throw, so the outcome is Failure and nothing is saved |
| AddMessageProperties.SecondPostRepliesToFirst | webservices/cxf/src/java/org/sakaiproject/webservices/MessageForums.java:176-195 | posting twice into a site without forums reuses the created forum and topic; the second message replies to the first |
| ForumIds.CreateKeepsIdsBelow | webservices/cxf/src/java/org/sakaiproject/webservices/MessageForums.java:138-150 | when every id in the store is below the counter, the create branch keeps it so: the new forum and topic take ids below the moved counter |
| ForumIds.PostKeepsIdsBelow | webservices/cxf/src/java/org/sakaiproject/webservices/MessageForums.java:176-195 | saving a message whose id is the counter's value into a topic, and moving the counter on, keeps every id of the store below the counter |
| ForumIds.AddMessageKeepsIdsBelow | webservices/cxf/src/java/org/sakaiproject/webservices/MessageForums.java:91-201 | whatever the outcome, addMessage keeps every forum, topic and message id of the store below the counter, so the ids it hands out later are unused |
| ForumIds.PostedMessageIdIsFresh | webservices/cxf/src/java/org/sakaiproject/webservices/MessageForums.java:176-195 | when every id is below the counter, the message posted into an existing topic has an id no earlier message of that topic has, so its reply link never points at itself |
| ForumListing.ForumTree | webservices/cxf/src/java/org/sakaiproject/webservices/MessageForums.java:249-295 | forumlistTotal equals the number of forums (0 for a null list); each forum node lists its forum in order, and its topiclistTotal equals the forum's number of topics (0 for null) |
| ForumListing.GetForumsInSite | webservices/cxf/src/java/org/sakaiproject/webservices/MessageForums.java:219-302 | a missing site, or a caller who is neither super user nor allowed to update the site, gets the fixed error document, whatever the site holds; a site without the tool gets the tool-not-found text; otherwise the listing has the totals and order above; the two literal replies are held by `ListReply.Literal` (lines 236 and 302) |
| ForumListing.BuildForumList | webservices/cxf/src/java/org/sakaiproject/webservices/MessageForums.java:249-295 | the loop-and-counter construction of the Java code produces exactly the listing tree |
| UserTime.PreferredTimezone | kernel/kernel-impl/src/main/java/org/sakaiproject/time/impl/UserTimeServiceImpl.java:71-78 | the result is the user's stored property, or the system default when the property is absent or empty; it is non-empty when the default is |
| UserTime.GetUserTimezone | kernel/kernel-impl/src/main/java/org/sakaiproject/time/impl/UserTimeServiceImpl.java:62-83 | no session user gives the default with no state change; a cache hit gives the cached id with no state change; a miss gives the preferred timezone and caches it for that user only; preferences and zone memo never change |
| UserTime.GetLocalTimeZone | kernel/kernel-impl/src/main/java/org/sakaiproject/time/impl/UserTimeServiceImpl.java:89-93 | the zone is the memoised one for the resolved id, or the parsed one if the id is new; the memo only gains that id |
| UserTime.ClearLocalTimeZone | kernel/kernel-impl/src/main/java/org/sakaiproject/time/impl/UserTimeServiceImpl.java:99-102 | always returns true; removes only that user's cache entry; preferences and memo are unchanged |
| UserTime.ResolveIsIdempotent | kernel/kernel-impl/src/main/java/org/sakaiproject/time/impl/UserTimeServiceImpl.java:67-80 | a second resolve for the same user returns the same id and does not change state, whatever the preferences are by then |
| UserTime.ClearThenResolveReadsPreferences | kernel/kernel-impl/src/main/java/org/sakaiproject/time/impl/UserTimeServiceImpl.java:99-102 | after clearing a user, the next resolve returns the current preference (or the default), not a stale cached id |
| UserTime.StepKeepsCacheNonEmpty | kernel/kernel-impl/src/main/java/org/sakaiproject/time/impl/UserTimeServiceImpl.java:75-80 | with a non-empty system default, no event puts an empty id in the cache |
| UserTime.RunKeepsCacheNonEmpty | kernel/kernel-impl/src/main/java/org/sakaiproject/time/impl/UserTimeServiceImpl.java:75-80 | the non-empty-cache invariant holds after any sequence of resolves, zone lookups, clears and preference changes |
| UserTime.RunKeepsMemo | kernel/kernel-impl/src/main/java/org/sakaiproject/time/impl/UserTimeServiceImpl.java:92 | a memoised id keeps its zone across any sequence of events |
| UserTime.MemoisedZoneIsStable | kernel/kernel-impl/src/main/java/org/sakaiproject/time/impl/UserTimeServiceImpl.java:89-92 | once an id is memoised, every later zone lookup that resolves to it returns the same zone |
| UserTime.CachedEntrySurvives | kernel/kernel-impl/src/main/java/org/sakaiproject/time/impl/UserTimeServiceImpl.java:67-68 | while a user's entry is neither cleared nor evicted by the cache, resolving that user keeps returning the cached id, even if the preference changes |

## Left out

- Date and time formatting (`dateFormatLong`, `dateTimeFormatLong`, `shortLocalizedTimestamp`, `shortLocalizedDate`): these only delegate to the JDK's locale-aware formatters.
- Parsing a timezone id into a `TimeZone`: it is the function parameter `parse`, used only when the zone memo misses.
- One system default id stands for both the `defaultTimezone` field, captured at construction, and `TimeZone.getDefault().getID()`, read on a cache miss. The model does not cover the JVM default changing at run time.
- Concurrency of the shared cache and of the zone memo: every operation is one atomic step.
- The memory-service cache may expire or evict entries at any time. This is the `Evict` event of a run, and `CachedEntrySurvives` excludes it along with `Clear`. The cache's expiry policy itself is not modelled.
- UserTime.ResolveIsIdempotent: it states the two resolves with nothing between them but a preference change, so no eviction; runs with evictions are covered by `CachedEntrySurvives`.
- Session establishment, `siteService`, `securityService` and the thread-local placement. The site lookup is `context in sites` of the store, for both operations. Super-user and site-update permission are booleans.
- XML document construction and serialisation, including `Long.toString` of ids and text escaping: the listing is a tree of nodes.
- The totals are unbounded integers: the Java `int` counters would overflow beyond 2^31 - 1 elements.
- Id generation: the persistence layer behind the managers assigns ids. The model takes them from the store's counter, so they are unused only in a store that satisfies `IdsBelow`; a store built without it may reuse an id.
- Persistence faults: the model raises exceptions only for a missing site, for iterating a null forum list or a null topic collection, and for testing a null topic draft flag. Every other manager call succeeds, so no failure path leaves a partial write.
- Forums.AddMessage: the re-listing after the create branch returns exactly the saved forum. So "No forums found in site=" cannot happen in the model; in the source it happens only if the manager does not list the forum just saved.
- Null request parameters: every parameter is a string. In the source a null `forum` or `topic` throws on the title comparison.
- A forum's `getTopicsSet()` (used by `addMessage`) and `getTopics()` (used by the listing) are one optional sequence in one fixed iteration order.
- The created topic's own defaults come from the forum manager, which is not part of this model. Its draft flag is taken as a non-null false, and its message list as empty.
- Logging and `printStackTrace`. The draft test inside the topic loop only logs when the flag is non-null: `TopicDraftFlagsDoNotSteerPosting` proves the flag's value has no effect. A null flag throws, and `NullTopicDraftGivesFailure` covers that.
