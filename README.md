# Oulipo dashboard route rules in Dafny

This project models the decision logic of the Oulipo dashboard, a Next.js app. The app's route handlers sit on top of `fetch`, Supabase, the filesystem and React. Inside them are small deterministic rules, and those rules are what is modelled:

- the chronological insert into `events.json` (`POST /api/events`);
- `POST /api/upcoming/events`:
  - the snake-case payload builder and the `date_display` formatter;
  - the table-name variants;
  - the insert loop that moves on only when a table is missing, and the failure hint;
- the Supabase status probe (`GET /api/supabase/status`);
- the AI proxy (`POST /api/ai`):
  - provider routing and the choice of message list;
  - error mapping;
  - the line buffer and `data:` rewrite that turn OpenAI's server-sent events into Anthropic `content_block_delta` frames;
- the request gate (`middleware.ts`) and the login check;
- the postable-tasks API: the GET filter, POST validation and defaults, and the PATCH update object;
- the navigation component's expanded sections and its active-link and active-tab rules.

Foreign calls are parameters of the handlers. These are the Supabase calls, the upstream `fetch`, `JSON.parse`/`JSON.stringify` and JavaScript date arithmetic. Each parameter maps its input to the outcome it produced. JSON values are the datatype `JsValues.JsValue`, and JavaScript truthiness and optional property reads are spelled out over it.

Modules:

| module | file |
|---|---|
| `Wrappers`, `JsValues`, `Strings` | shared: Option/Result, JSON values, `split`/`join`/`trim`/decimal digits |
| `EventsStore` | `events_store.dfy` |
| `EventsTable` | `events_table.dfy`: table-name variants and de-duplication shared by two routes |
| `UpcomingEvents` | `upcoming_events.dfy` |
| `SupabaseStatus` | `supabase_status.dfy` |
| `AiRoute` | `ai_route.dfy` |
| `Middleware`, `Login` | `middleware.dfy`, `login.dfy` |
| `PostableTasks` | `postable_tasks.dfy` |
| `Navigation` | `navigation.dfy` |

## Model

| member | source | states |
|---|---|---|
| EventsStore.FirstLater | app/api/events/route.ts:39-45 | the insert index is at most the list length, no event before it is strictly later than the new date, and the event at it (if any) is |
| EventsStore.Later | app/api/events/route.ts:41 | definition (no contract of its own): `>` on two dates, false when either is invalid; stated by `FirstLater`, `EqualDatesStayBefore` and `InsertKeepsAscending` |
| EventsStore.InsertChronologically | app/api/events/route.ts:37-46 | the scan-and-break loop followed by `splice` yields exactly `Insert(events, event)` |
| EventsStore.FirstLaterIsFirst | app/api/events/route.ts:40-45 | any index satisfying the "first strictly later" conditions is the one the loop stops at |
| EventsStore.InsertPlacement | app/api/events/route.ts:38-46 | length grows by one; the new event sits at the first strictly later index (the end iff none is later); the old events before and after keep their order |
| EventsStore.EqualDatesStayBefore | app/api/events/route.ts:41 | in an ascending list, an event with the same date as the new one stays before it, since the comparison is strict |
| EventsStore.InsertMultiset | app/api/events/route.ts:46 | the result is a permutation of the old list plus one copy of the new event |
| EventsStore.InsertKeepsAscending | app/api/events/route.ts:37-46 | inserting into an ascending list leaves it ascending |
| EventsStore.Insert | app/api/events/route.ts:37-46 | definition (no contract of its own): the list with the event spliced in at `FirstLater`; its properties are `InsertPlacement`, `InsertMultiset` and `InsertKeepsAscending` |
| EventsStore.PostEvent | app/api/events/route.ts:26-46 | the 500 iff the body is unreadable or `null`, or the file is not JSON or not an array; otherwise a missing file gives the one-element list and a present file gives the insert |
| EventsTable.TableMissing | app/api/upcoming/events/route.ts:71 | definition (no contract of its own): the codes `42P01` and `PGRST204` after which the next name is tried; used by `InsertIntoFirstTable`, `LastErrorCases`, `ProbeTables` and `Status` |
| EventsTable.ConfiguredTable | app/api/upcoming/events/route.ts:27 | an unset or empty `SUPABASE_EVENTS_TABLE` gives `oulipo-events`, otherwise the variable's value |
| EventsTable.Candidates | app/api/upcoming/events/route.ts:42-47 | definition (no contract of its own): the configured name, its `-`→`_` form, `events`, `oulipo_events`; stated by `ConfiguredTriedFirst` and `DefaultVariants` |
| EventsTable.FirstOccurrences | app/api/supabase/status/route.ts:20 | definition (no contract of its own): the `indexOf(v) === i` filter over a prefix; stated by `FirstOccurrencesFacts` and `FirstOccurrencesGrow` |
| EventsTable.Unique | app/api/upcoming/events/route.ts:115-118 | definition (no contract of its own): the first-occurrence filter of the whole list; stated by `UniqueSameNames`, `UniqueNoDuplicates`, `UniqueKeepsFirstOrder` and `UniqueStrings` |
| EventsTable.Variants | app/api/supabase/status/route.ts:15-20 | definition (no contract of its own): the de-duplicated candidates; stated by `ConfiguredTriedFirst` and `DefaultVariants` |
| EventsTable.IndexOf | app/api/supabase/status/route.ts:20 | `indexOf`: the first index holding the name, or -1 exactly when it is absent |
| EventsTable.UniqueStrings | app/api/upcoming/events/route.ts:115-118 | the seen-set loop returns the first-occurrence filter of the list |
| EventsTable.FirstOccurrencesFacts | app/api/supabase/status/route.ts:20 | the kept prefix holds exactly the names of the scanned prefix, in increasing order of first occurrence |
| EventsTable.UniqueSameNames | app/api/upcoming/events/route.ts:115-118 | de-duplication keeps exactly the same set of names |
| EventsTable.UniqueNoDuplicates | app/api/upcoming/events/route.ts:115-118 | the de-duplicated list has no repeats |
| EventsTable.UniqueKeepsFirstOrder | app/api/upcoming/events/route.ts:115-118 | names appear in the order of their first occurrence |
| EventsTable.UniqueOfDistinct | app/api/supabase/status/route.ts:15-20 | a list without repeats is left unchanged |
| EventsTable.FirstOccurrencesGrow | app/api/supabase/status/route.ts:20 | scanning further only appends to the kept list |
| EventsTable.ConfiguredTriedFirst | app/api/upcoming/events/route.ts:42-47 | the configured name is tried first, and `events` and `oulipo_events` are always tried |
| EventsTable.DefaultVariants | app/api/supabase/status/route.ts:13-20 | with no configured table the names tried are `oulipo-events`, `oulipo_events`, `events` |
| UpcomingEvents.ToSnake | app/api/upcoming/events/route.ts:30 | the snake-case key has no upper-case letter |
| UpcomingEvents.CamelOfMarked | app/api/upcoming/events/route.ts:30 | marking capitals and lower-casing is undone by the camel-case reading |
| UpcomingEvents.SnakeRoundTrip | app/api/upcoming/events/route.ts:30 | for camel-case identifiers, reading the snake-case key back gives the original key |
| UpcomingEvents.SnakeInjective | app/api/upcoming/events/route.ts:30 | distinct camel-case keys get distinct snake-case keys |
| UpcomingEvents.SnakeOfLowerKey | app/api/upcoming/events/route.ts:30 | an all-lower-case key not starting with `_` is unchanged |
| UpcomingEvents.MarkNoCapitals | app/api/upcoming/events/route.ts:30 | marking capitals changes nothing in a string without capitals |
| UpcomingEvents.MarkCapitalsAppend | app/api/upcoming/events/route.ts:30 | marking capitals distributes over concatenation |
| UpcomingEvents.SnakeOfOneCapital | app/api/upcoming/events/route.ts:30 | one capital inside a lower-case key becomes `_` plus its lower-case letter |
| UpcomingEvents.SnakeDateEnd | app/api/upcoming/events/route.ts:30 | `dateEnd` becomes `date_end` |
| UpcomingEvents.SnakeDateDisplay | app/api/upcoming/events/route.ts:30 | `dateDisplay` becomes `date_display` |
| UpcomingEvents.Payload | app/api/upcoming/events/route.ts:29-38 | definition (no contract of its own): the picked fields plus the derived `date_display`; stated by `PayloadKeys` and `WithDateDisplay`, and used by `SaveEvent` and `PostUpcoming` |
| UpcomingEvents.Picked | app/api/upcoming/events/route.ts:31-35 | definition (no contract of its own): the payload after the loop has visited a prefix of the keys; stated by `PickedKeySet`, `PickedValues` and `PayloadKeys` |
| UpcomingEvents.BuildPayload | app/api/upcoming/events/route.ts:29-35 | the copying loop over `EVENT_FIELDS` yields `Picked(event, EVENT_FIELDS)` |
| UpcomingEvents.PickedKeySet | app/api/upcoming/events/route.ts:31-35 | the payload's keys are exactly the snake-cased fields whose values are neither undefined nor null |
| UpcomingEvents.PickedValues | app/api/upcoming/events/route.ts:32-33 | a copied field's value is stored under its snake-case key when no later field snake-cases alike |
| UpcomingEvents.EventFieldsSnakeDistinct | app/api/upcoming/events/route.ts:4 | no two `EVENT_FIELDS` share a snake-case key |
| UpcomingEvents.PayloadKeys | app/api/upcoming/events/route.ts:4-35 | a key is in the payload iff it is the snake-case form of a kept event field, and it holds that field's value |
| UpcomingEvents.DisplayText | app/api/upcoming/events/route.ts:126-131 | definition (no contract of its own): `"<Mon> <d>"` with an optional `–<e>`; stated by `DisplayRoundTrip` |
| UpcomingEvents.FormatDateDisplay | app/api/upcoming/events/route.ts:120-138 | definition (no contract of its own): `formatDateDisplay`, a non-string value returned as it came; stated by `FormatDateDisplayCases` |
| UpcomingEvents.FormatDateDisplayCases | app/api/upcoming/events/route.ts:120-138 | an invalid start is returned unchanged; otherwise "Mon d", and "Mon d–e" when the end date falls in the same month, whatever its year |
| UpcomingEvents.MonthNumber | app/api/upcoming/events/route.ts:125 | a recognised month abbreviation names that month |
| UpcomingEvents.MonthFrom | app/api/upcoming/events/route.ts:125 | the month search finds a name exactly when it appears from the starting month on |
| UpcomingEvents.MonthNumberOfName | app/api/upcoming/events/route.ts:125 | every month's abbreviation reads back as that month |
| UpcomingEvents.DisplayRoundTrip | app/api/upcoming/events/route.ts:126-131 | every display text reads back as the month, day and end day it was built from |
| UpcomingEvents.WithDateDisplay | app/api/upcoming/events/route.ts:36-38 | `date_display` is set only when it is missing or falsy and `date` is truthy; otherwise the payload is unchanged; other keys are never touched |
| UpcomingEvents.FirstPresent | app/api/upcoming/events/route.ts:53-74 | the first table that is not missing (or the end): every table before it is missing and it is not |
| UpcomingEvents.StopIsUnique | app/api/upcoming/events/route.ts:53-74 | at most one table is both reached and not missing, so the loop's stopping place is unique |
| UpcomingEvents.LastError | app/api/upcoming/events/route.ts:50-72 | definition (no contract of its own): `lastError` when the loop exits without a row; stated by `LastErrorCases` and used by `InsertIntoFirstTable`, `SaveEvent` and `PostUpcoming` |
| UpcomingEvents.LastErrorCases | app/api/upcoming/events/route.ts:65-72 | the error kept when the loop gives up is that of the reached table whose code is not `42P01`/`PGRST204`, or that of the last table when every table is missing |
| UpcomingEvents.InsertIntoFirstTable | app/api/upcoming/events/route.ts:49-74 | stored iff some reached table (all before it missing) returns a row; thrown iff a reached table returns neither row nor error; moves on only past `42P01`/`PGRST204`; on giving up the kept error is `LastError` |
| UpcomingEvents.FailureHint | app/api/upcoming/events/route.ts:83-87 | missing-tables hint iff the last code is `42P01`, permission hint iff `42501`, no hint otherwise |
| UpcomingEvents.CheckEvent | app/api/upcoming/events/route.ts:18-24 | 400 "Event object is required." iff the event is falsy or not of object type; 400 "Event title and date are required." iff it is an object with a falsy title or date; accepted iff it is an object with a truthy title and date, and then yields its fields |
| UpcomingEvents.SaveFailedMessage | app/api/upcoming/events/route.ts:78 | definition (no contract of its own): `Failed to save event: ` and the last error's message or `Unknown error`; used by the `SaveEvent` and `PostUpcoming` contracts |
| UpcomingEvents.SaveEvent | app/api/upcoming/events/route.ts:26-107 | created iff a reached table returns a row, with that table and the payload plus id; the unhandled 500 iff a reached table returns neither row nor error (`error.message` throws); otherwise the 500 whose message, error code and hint come from the kept error, listing every variant and the payload's keys |
| UpcomingEvents.PostUpcoming | app/api/upcoming/events/route.ts:6-112 | 503 exactly when unconfigured; an accepted event on a configured server always gets created, the save-failed 500 or the unhandled 500; the 400s; for an accepted event, created iff a reached table returns a row (carrying that table and the payload plus id) and the unhandled 500 iff a reached table returns neither; a failure's message, error code and hint come from the kept error, and it lists every variant and the payload's keys; the missing-tables hint only after every variant was missing |
| SupabaseStatus.ErrorHint | app/api/supabase/status/route.ts:40-42 | the permission hint for `42501`, otherwise the error message |
| SupabaseStatus.ProbeTables | app/api/supabase/status/route.ts:22-61 | over distinct names: connected names the first answering table after missing ones; a non-missing error or a throw stops with that table; "no table" iff every name was missing, listing them all |
| SupabaseStatus.Status | app/api/supabase/status/route.ts:4-62 | unconfigured iff not configured; connected names the first answering table after missing ones; a non-missing error or a throw stops with that table; "no table" iff every variant was missing, listing them all |
| AiRoute.IsOpenAIModel | app/api/ai/route.ts:12-14 | definition (no contract of its own): starts with `gpt-`, `o1` or `o3`; stated by `Route` |
| AiRoute.Route | app/api/ai/route.ts:12-14 | OpenAI exactly for models starting with `gpt-`, `o1` or `o3`, Anthropic for every other model |
| AiRoute.DocumentedModels | app/api/ai/route.ts:172-190 | the default model and the Claude models go to Anthropic, `gpt-4o` and `gpt-4o-mini` to OpenAI |
| AiRoute.PlanRequest | app/api/ai/route.ts:171-184 | 400 iff `userContent` is falsy and `messages` is absent or empty; the defaults apply to absent fields; a non-empty `messages` wins, otherwise one user message |
| AiRoute.UpstreamMessages | app/api/ai/route.ts:75-78 | OpenAI gets the system message followed by the original messages in order; Anthropic gets the messages as they are |
| AiRoute.UpstreamBody | app/api/ai/route.ts:26-40 | the posted body carries the plan's model, 4096 tokens and streaming; the system prompt travels as Anthropic's `system` field or as OpenAI's leading message; the conversation follows in order |
| AiRoute.Relay | app/api/ai/route.ts:21-105 | a missing key gives 500; 429 gives the rate-limit error; other failures keep the status and quote at most the first 200 characters of the body; no body gives 500 |
| AiRoute.PostAi | app/api/ai/route.ts:168-197 | an unreadable body gives the catch-all 500; a rejected request gives 400; an accepted one goes to its routed provider, which is sent `UpstreamBody` of the plan |
| AiRoute.PostAiStreams | app/api/ai/route.ts:182-190 | a stream is opened iff the request is accepted, the routed provider has a key and answered with a body; it comes from the routed provider |
| AiRoute.DeltaEvent | app/api/ai/route.ts:139-142 | definition (no contract of its own): the `content_block_delta` object; stated by `TransformLineCases` and `DeltaFrameReadsBack` |
| AiRoute.TransformLine | app/api/ai/route.ts:127-148 | a line gives at most one frame, and none unless it starts with `data: ` |
| AiRoute.DeltaContent | app/api/ai/route.ts:136 | definition (no contract of its own): `parsed.choices?.[0]?.delta?.content`; stated by `TransformLineCases` and `DeltaFrameReadsBack` |
| AiRoute.TransformLineCases | app/api/ai/route.ts:128-147 | `[DONE]` gives the done frame; malformed JSON gives nothing; a chunk with truthy delta content gives one `content_block_delta` frame, otherwise nothing |
| AiRoute.DeltaFrameReadsBack | app/api/ai/route.ts:139-143 | if `JSON.parse` reads back what `JSON.stringify` writes, a delta frame parses back to the event carrying the chunk's content |
| AiRoute.CompleteLines | app/api/ai/route.ts:124-125 | no complete line contains a newline |
| AiRoute.BufferStep | app/api/ai/route.ts:123-125 | after a chunk, the complete lines joined by newlines, then a newline and the kept buffer, equal the old buffer plus the chunk; the buffer holds no newline |
| AiRoute.BufferInvariantStep | app/api/ai/route.ts:123-125 | splitting the whole text so far equals the lines already emitted plus the pieces of the buffer extended by the new chunk |
| AiRoute.EnqueueLines | app/api/ai/route.ts:127-149 | the per-chunk loop appends the frames of each complete line in order |
| AiRoute.RelayStream | app/api/ai/route.ts:116-150 | what is enqueued equals the frames of the complete lines of the whole concatenated stream, wherever the chunks were cut; an unterminated last line gives nothing |
| Middleware.IsPublic | middleware.ts:8-15 | definition (no contract of its own): `/login`, `/api/health` and `/api/google/callback` exactly, and every path starting with `/api/auth`; stated by `Gate`, `ExactExemptions` and `AuthApiIsPublic` |
| Middleware.Gate | middleware.ts:4-30 | passes iff the path is public or the `oulipo-auth` cookie is present; otherwise redirects pages to `/login` and answers 401 under `/api/` |
| Middleware.ExactExemptions | middleware.ts:8-15 | paths below `/api/health`, `/api/google/callback` and `/login` still need the cookie |
| Middleware.AuthApiIsPublic | middleware.ts:10 | every path starting with `/api/auth` passes without the cookie |
| Login.PostLogin | app/api/auth/login/route.ts:4-48 | an unreadable body gives 400 "Invalid request"; then a falsy password gives 400, an unset or empty `DASHBOARD_PASSWORD` gives 500, a mismatch gives 401, and a match sets the session cookie |
| Login.SessionCookie | app/api/auth/login/route.ts:33-39 | definition (no contract of its own): the `oulipo-auth` cookie and its attributes; stated by `PostLogin` and `LoginSucceedsExactly` |
| Login.LoginSucceedsExactly | app/api/auth/login/route.ts:8-41 | login succeeds iff the body's `password` is the non-empty configured password as a string; the cookie is `oulipo-auth=authenticated`, path `/`, httpOnly, 2592000 seconds, `lax`, and secure only in production |
| Login.PasswordCheckedFirst | app/api/auth/login/route.ts:8-22 | a missing password gives the same 400 whatever the server configuration |
| Login.LoginOpensGate | app/api/auth/login/route.ts:33-39 | with the cookie a successful login sets, the gate lets every path through |
| PostableTasks.StatusFilter | app/api/postable/tasks/route.ts:22-28 | a filter is applied iff the status parameter is present and non-empty, and it is that status |
| PostableTasks.GetTasks | app/api/postable/tasks/route.ts:14-41 | unconfigured gives no tasks with source `none`; an error or a throw gives no tasks with source `error`; otherwise the rows when truthy and no tasks for any falsy data (`data || []`) |
| PostableTasks.Or | app/api/postable/tasks/route.ts:59 | the value when truthy, the fallback otherwise |
| PostableTasks.ValidTitle | app/api/postable/tasks/route.ts:52 | definition (no contract of its own): a string title with non-whitespace content; stated by `NewTaskRow`, `PostTask` and `InvalidTitleWritesNothing` |
| PostableTasks.NewTaskRow | app/api/postable/tasks/route.ts:52-59 | rejects iff the title is not a string with non-whitespace content; the row has the trimmed title and `notes`, `posting_idea`, `status` defaulting to `''`, `null`, `active` |
| PostableTasks.StoredTitleIsTrimmed | app/api/postable/tasks/route.ts:59 | a stored title is non-empty and neither starts nor ends with whitespace |
| PostableTasks.WriteResponse | app/api/postable/tasks/route.ts:63-72 | returned data gives `{ task }`; a Supabase error gives 500 with its message; a throw gives 500 with its message or `Unknown error` |
| PostableTasks.PostTask | app/api/postable/tasks/route.ts:43-73 | 503 when unconfigured; an unreadable body gives 500; an invalid title gives 400; otherwise the insert of the validated row |
| PostableTasks.InvalidTitleWritesNothing | app/api/postable/tasks/route.ts:52-54 | an invalid title gets the same 400 whatever the insert would have done |
| PostableTasks.Restrict | app/api/postable/tasks/route.ts:89-92 | the update holds exactly the updatable keys present in the body, with the body's values |
| PostableTasks.BuildUpdates | app/api/postable/tasks/route.ts:89-92 | the three conditional assignments give exactly the body restricted to `title`, `notes`, `status` (`null` kept) |
| PostableTasks.UpdatesEmpty | app/api/postable/tasks/route.ts:94-96 | the update is empty iff the body has none of `title`, `notes`, `status` |
| PostableTasks.PatchTask | app/api/postable/tasks/route.ts:75-115 | 503 when unconfigured; 400 without a truthy `id`; 400 "No updates provided" on an empty update; otherwise the update of that id with exactly those fields |
| Navigation.ToggleSection | components/navigation/Navigation.tsx:47-53 | definition (no contract of its own): filter out a present label, append an absent one; stated by `ToggleFlips`, `ToggleTwice` and `ToggleKeepsOthersOrder` |
| Navigation.Without | components/navigation/Navigation.tsx:50 | the filter removes every copy of the label and keeps every other label |
| Navigation.ToggleFlips | components/navigation/Navigation.tsx:47-53 | a toggle flips the label's membership, leaves the other labels' membership alone, and appends an absent label at the end |
| Navigation.WithoutAbsent | components/navigation/Navigation.tsx:50 | filtering out an absent label changes nothing |
| Navigation.WithoutAppend | components/navigation/Navigation.tsx:50 | the filter distributes over concatenation |
| Navigation.ToggleTwice | components/navigation/Navigation.tsx:47-53 | toggling an absent label twice restores the list exactly |
| Navigation.ToggleKeepsOthersOrder | components/navigation/Navigation.tsx:49-51 | with the toggled label filtered out, the list is the same before and after |
| Navigation.InitialState | components/navigation/Navigation.tsx:45 | only Gallery starts expanded, and one toggle of Gallery collapses everything |
| Navigation.SectionPrefix | components/navigation/Navigation.tsx:107 | the tab prefix of a link is a prefix of the link |
| Navigation.SectionPrefixOf | components/navigation/Navigation.tsx:107 | the prefix of `/segment/rest` is `/segment` |
| Navigation.SectionPrefixAt | components/navigation/Navigation.tsx:107 | the prefix ends just before the second `/` |
| Navigation.TabHref | components/navigation/Navigation.tsx:105 | a tab links to its section's first item |
| Navigation.ItemPageActivatesTab | components/navigation/Navigation.tsx:107 | on the page of any of its links, a section's tab is active |
| Navigation.TabTargets | components/navigation/Navigation.tsx:19-41 | the tabs link to `/studio/context-scan`, `/gallery/content-publisher` and `/market/crm` |
| Navigation.GalleryPrefixes | components/navigation/Navigation.tsx:28-32 | every Gallery link has the prefix `/gallery` |
| Navigation.GalleryTab | components/navigation/Navigation.tsx:107 | the Gallery tab is active iff the path starts with `/gallery`, which includes paths like `/gallery2` |
| Navigation.IsActive | components/navigation/Navigation.tsx:55 | definition (no contract of its own): exact equality of pathname and href; stated by `AtMostOneActiveLink` |
| Navigation.TabActive | components/navigation/Navigation.tsx:107 | definition (no contract of its own): some item's section prefix starts the pathname; stated by `ItemPageActivatesTab` and `GalleryTab` |
| Navigation.AtMostOneActiveLink | components/navigation/Navigation.tsx:55 | active is exact equality and the hrefs are distinct, so at most one link is active |
| Strings.StartsWith | app/api/ai/route.ts:13 | definition (no contract of its own): `startsWith`, the prefix of the string's length equals the argument |
| Strings.ReplaceAll | app/api/upcoming/events/route.ts:44 | `replace(/-/g, '_')` for one character: same length, each occurrence replaced and every other character kept |
| Strings.Split | app/api/ai/route.ts:124 | `split` on one character: at least one piece, and no piece holds the separator |
| Strings.Join | app/api/ai/route.ts:124 | definition (no contract of its own): `join`; stated by `JoinSplit` |
| Strings.Decimal | app/api/ai/route.ts:48 | the decimal text of a status is non-empty, all digits, without a leading zero |
| Strings.JoinSplit | app/api/ai/route.ts:124 | joining the pieces of a split with the separator gives back the string |
| Strings.SplitAppend | app/api/ai/route.ts:123-125 | splitting `x + y` gives the complete pieces of `x`, then the split of its tail extended by `y` |
| Strings.Trim | app/api/postable/tasks/route.ts:52 | the trimmed string is no longer and does not start or end with JavaScript whitespace |
| Strings.TrimIsSlice | app/api/ai/route.ts:129 | the trimmed string is the input with only whitespace removed from either end |
| Strings.Take | app/api/ai/route.ts:48 | `slice(0, n)`: the first `n` characters when the string is longer, the whole string otherwise |
| Strings.DecimalRoundTrip | app/api/ai/route.ts:48 | the decimal rendering of a status reads back as that number |
| JsValues.Prop | app/api/ai/route.ts:136 | an optional property read returns an object's field (or `undefined` when absent), an array's first element for key `"0"`, and `undefined` from any other value |

## Left out

- File and network I/O are not modelled. This covers reading and writing `events.json`, the atomic rename, the HTML rewrite (`updateHtmlFile`) and the events `GET`. Only the insert and the read/missing/unparsable distinction of the `POST` are modelled.
- Supabase, `fetch`, `JSON.parse`/`JSON.stringify` and JavaScript `Date` arithmetic are function parameters, not implementations. `formatDateDisplay`'s `split('-').map(Number)` and `new Date(y, m - 1, d)` are the `dateOf` parameter.
- JavaScript numbers are integers in `JsValue`, with no fractions and no NaN. An invalid date is the `Instant.Invalid` value.
- Object key order is not modelled: payloads and update objects are maps. `payloadKeys` is therefore a set.
- `UpcomingEvents.PostUpcoming`: the follow-up `postable_tasks` insert after a successful save is not modelled (lines 94-105). Its failure is only logged, and the response does not depend on it. A body that is not JSON is not modelled; a `null` body is the `Unhandled` 500.
- `AiRoute.PostAi`: a `model` or `systemPrompt` that is not a string is not modelled (the fields are strings or absent). The same holds for a `messages` value that is not a list.
- `AiRoute.RelayStream`: chunks are already-decoded strings, since `TextDecoder` is not modelled. A read error ends the stream early; that is not modelled.
- EventsStore.PostEvent: a stored list holding a `null` entry is not modelled. When the scan reaches that entry, `events[i].date` throws and the handler answers 500. The stored events are records with a date, so the model cannot represent such an entry.
- Strings.Take: counts Unicode characters. JavaScript's `slice(0, 200)` (app/api/ai/route.ts:48) counts UTF-16 code units, so a character outside the Basic Multilingual Plane counts twice and can be cut in half. The model's quote can therefore hold more characters than the real one when the body has such characters.
- `JsValues.Prop`: property reads are modelled for object fields and for index `"0"` of an array. Reads of built-in properties of strings, arrays or functions are treated as `undefined`.
- `UpcomingEvents.ToLower`: lower-casing is modelled for ASCII letters only.
- The middleware `matcher` regex (middleware.ts:41) is framework configuration. It decides which requests reach the gate and is not modelled.
- The navigation component's JSX rendering, React state plumbing and the logout button are not modelled. The same goes for the other pages, the stub routes, and the Redis and Google helpers; none of them is in this model.
- Console logging is not modelled.
