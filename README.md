# BEEF+ Task Notifier — a Dafny model

BEEF+ Task Notifier is a browser extension for the BEEF+ learning portal of
Kobe University. It has three parts, and this project models the logic of
each:

* **Background worker** (`background.js`):
  * It keeps one reminder per lead time (24, 12, 3 and 1 hours before a
    task's deadline) in `chrome.alarms`. It names each reminder
    `notify-<base64 of the task key>-<hours>`.
  * When a reminder fires, it decodes the name back into a task and requests
    a notification.
  * Whenever the stored task list changes, it clears every reminder and
    registers them all again. It also registers them at start-up.
  * Every five minutes a `gmailSync` alarm reads the portal's notification
    mails. For each mail it finds the body in the MIME tree, decodes it from
    base64url and UTF-8, and parses the "更新内容：" bullet lines into events
    ("assignment added", "assignment submitted", "survey or material
    added").
  * It folds those events into the stored tasks as mail tasks with the
    `mailto-task://` scheme.
* **Popup** (`popup.js`):
  * It formats the time left until a deadline.
  * It picks the link a task card opens.
  * It sorts the cards: undated tasks first, then by deadline.
* **Content script** (`content.js`):
  * It normalises the deadline text it scrapes from the portal's task list.
  * It merges the scraped tasks into storage by URL, with a
    `lastUpdated` stamp.

The modules are:

* `Wrappers` and `Bytes`: `Option`, `Result` and the `byte` type.
* `JsString`: the JavaScript string operations the code relies on:
  * `String(n)` for non-negative integers;
  * `trim` with the ECMAScript white-space and line-terminator sets;
  * `indexOf`, `split`, `join`.
* `Utf8`: UTF-8 as in RFC 3629, used by `TextEncoder` and `TextDecoder`.
  `TextDecoder` with its default options also drops one leading byte order
  mark (U+FEFF), and the model does the same.
* `Base64`: the encoding of section 4 of RFC 4648 (`btoa`). Decoding
  follows the forgiving-base64 decode used by `atob`: ASCII white space is
  dropped, and padding may be missing.
* `Model`: the stored task record and the mail events.
* `AlarmCodec`:
  * `encodeBase64` and `decodeBase64`;
  * the reminder name;
  * the `^notify-(.*)-(\d+)$` match.
* `Scheduler`:
  * the alarm registry, a class over a map from name to fire time;
  * `scheduleNotifications`;
  * the re-registration on storage change and at start-up;
  * the reminder dispatch.
* `Mime`: `findBody` and `getMailBody`.
* `MailParser`: `parseBeefMail`. Each of its regular expressions has the
  form `P(.+)S`, and one leftmost-longest matcher serves them all.
* `MailStore`:
  * `encodeURIComponent`;
  * `applyMailUpdates` as a method of a `Storage` class;
  * the `gmailSync` listener with its processed-id set.
* `Popup`: `formatRemainingTime`, `buildTargetUrl` and the card order.
* `Content`: `parseDeadline` and `updateStoredTasks`, and the page run.

Modelling conventions:

* Times are integers of milliseconds since the epoch. The clock reading is
  the parameter `now`.
* A stored due date is `Option<int>`. `None` stands for an absent or
  unparsable date.
* Outside help is passed in as a function parameter:
  * the HTTP response for a message id;
  * the `URL` constructor;
  * the date parser of the content script.
* Strings are sequences of Unicode scalar values.

## Model

| member | source | states |
|---|---|---|
| AlarmCodec.EncodeBase64 | background.js:42-50 | The UTF-8 → binary-string → btoa loop computes exactly the token `Token(str)` (base64 of the UTF-8 octets of the key). |
| AlarmCodec.DecodeBase64 | background.js:52-60 | The atob → octets → TextDecoder loop computes `KeyOf(token)`; it fails where atob or the decoder would, and drops a leading byte order mark. |
| AlarmCodec.KeyOfToken | background.js:42-60 | Decoding undoes encoding up to one leading byte order mark: `KeyOf(Token(key)) == Some(StripBom(key))`, and `Some(key)` for every key not starting with U+FEFF. |
| AlarmCodec.KeyOfTokenDropsBom | background.js:42-60 | The loss: a key with U+FEFF in front has a different token from the bare key, yet decodes to the bare key. |
| AlarmCodec.TokenInjective | background.js:42-50 | Different task keys give different tokens, so reminder names of different tasks never collide (the octets determine the key, whatever TextDecoder does with a byte order mark). |
| AlarmCodec.TokenAlphabet | background.js:42-50 | A token holds only base64 characters and '=': no '-' and no line terminator, which the name regex relies on. |
| AlarmCodec.Btoa | background.js:49 | btoa succeeds exactly on binary strings (every character below 256). |
| AlarmCodec.MatchAlarmName | background.js:115-118 | A reported match `(token, digits)` satisfies the regex: name = `notify-` + token + `-` + digits, digits a non-empty run of decimal digits. |
| AlarmCodec.MatchAlarmNameComplete | background.js:115-118 | Conversely, whenever the regex matches with groups (token, digits), the function reports exactly those groups. |
| AlarmCodec.MatchAlarmNameOfAlarmName | background.js:99-100 | The name built for a key and an offset matches the regex with the key's token and the offset's decimal digits. |
| Scheduler.PlanSkip | background.js:65-86 | A task without a deadline, or whose deadline is not ahead, gets no alarm and no notification (both directions). |
| Scheduler.PlanImmediate | background.js:88-93 | A notification with zero hours left is requested exactly when the deadline is at most one minute ahead. |
| Scheduler.PlanAlarms | background.js:95-109 | Beyond one minute, an alarm is planned exactly for each offset in 24, 12, 3, 1 whose fire time `due − h h` is ahead, at that time, under the name for the task key and h. |
| Scheduler.PlanSuffix | background.js:95-109 | The offsets that get alarms are a suffix of 24, 12, 3, 1; with one hour or less to go no alarm is planned. |
| Scheduler.PlanExamples | background.js:63-110 | Worked plans: 30 h ahead gives alarms at now+6, 18, 27, 29 h; 2 h gives one at now+1 h; 30 min gives no alarm and no notification; one minute past gives nothing. |
| Scheduler.PlanNamesCarryKey | background.js:99-100 | Every planned alarm fires after now, and its name matches the dispatch regex with a token that decodes back to the task key, less one leading byte order mark. |
| Scheduler.AlarmRegistry.Create | background.js:101 | Creating an alarm sets (or replaces) the fire time of that name and changes no other alarm. |
| Scheduler.AlarmRegistry.Clear | background.js:150-155 | Clearing removes exactly that name and reports whether it existed. |
| Scheduler.CreateLeadAlarm | background.js:96-108 | One pass of the offsets loop creates the alarm of that offset exactly when its fire time is ahead. |
| Scheduler.ScheduleNotifications | background.js:63-110 | The registry afterwards is the old one with the task's plan registered; the immediate notification is returned exactly for an Immediate plan; `scheduled` holds exactly when some alarm was created. |
| Scheduler.ScheduleAll | background.js:162-168 | Scheduling a list (also the start-up and install handler) registers each task's plan in list order and collects their immediate notifications. |
| Scheduler.OnTasksChanged | background.js:133-159 | On a new task list every `notify-` alarm is cleared and then every task scheduled: the registry is `Rescheduled(old, tasks, now)`. |
| Scheduler.RegisterLast | background.js:101 | Creating alarms in turn leaves each created name at the time of its last creation, and every other name as it was. |
| Scheduler.RegisterAllPlanned | background.js:162-168 | Scheduling the tasks in turn creates all their planned alarms in list order (`PlannedAlarms`). |
| Scheduler.RescheduledAlarms | background.js:133-159 | After re-registration, alarms not named `notify-` (gmailSync) keep their fire time, and the `notify-` alarms are exactly those planned for the new list, so none refers to a removed task. Each fires at the time planned last for its name, i.e. by the last task in list order with that key and offset. |
| Scheduler.RescheduledIdempotent | background.js:133-159 | A second storage change with the same list leaves the registry as the first left it. |
| Scheduler.FindByUrl | background.js:121 | The first stored task with the url, and None exactly when no task has it. |
| Scheduler.OnAlarmOfAlarmName | background.js:113-129 | A reminder for key k yields a notification exactly when a stored task has url `StripBom(k)`; it announces the first such task with the alarm's offset. |
| Scheduler.OnAlarmMissesBomUrl | background.js:113-129 | A task whose url starts with U+FEFF is never found by its own reminder unless another task has the url without the mark. |
| Scheduler.OnAlarmIgnoresGmailSync | background.js:114 | The mail-sync alarm never produces a reminder. |
| Mime.FindBody | background.js:232-242 | A body found is non-empty. |
| Mime.FindBodyPreOrder | background.js:232-242 | findBody returns the first non-empty body data in pre-order (part before sub-parts, left to right), and nothing when there is none. |
| Mime.UrlToStandardOfStandardToUrl | background.js:264 | Mapping '-' and '_' back to '+' and '/' undoes the base64url alphabet on every standard base64 string. |
| Mime.GetMailBody | background.js:244-267 | A failed request reports its HTTP status; a message without a body gives the empty text; an HTTP error arises only from the request. |
| Mime.AtobOfEncodeUrl | background.js:264 | The '-'/'_' mapping and atob recover the octets from their base64url form, padded or not. |
| Mime.DecodeBodyOfEncodeUrl | background.js:264-266 | A text sent as base64url of its UTF-8 octets, padded or not, is read back less one leading byte order mark, and exactly when it does not start with U+FEFF. |
| Mime.GetMailBodyOfMessage | background.js:244-267 | A message whose first non-empty body is such an encoding is read as that text, less one leading byte order mark. |
| MailParser.CaptureCorrect | background.js:274-296 | `P(.+)S` matching reports the group of the leftmost start with the longest group, and reports nothing exactly when there is no match. |
| MailParser.CaptureOnOneLine | background.js:274-296 | A reported group is non-empty and holds no line terminator. |
| MailParser.UpdateLines | background.js:277-283 | The candidate lines all contain '・' and no newline. |
| MailParser.WithBullet | background.js:283 | The filter keeps exactly the lines that contain '・'. |
| MailParser.PatternEvents | background.js:285-296 | At most one event per pattern, each carrying the mail's course. |
| MailParser.LineEventsMember | background.js:285-296 | An event comes from a line exactly when one of the four patterns matches it with the event's title as group, with that pattern's kind and category; at most four per line. |
| MailParser.ParseWithoutMarker | background.js:277-278 | A mail without 更新内容： gives no event. |
| MailParser.ParseEventsOrigin | background.js:271-299 | Every event comes from a '・' line after the marker through one of the patterns; its course is the trimmed 授業名： group, or 情報なし when there is none. |
| MailParser.ParseEventsComplete | background.js:271-299 | Every pattern match on such a line yields its event in the result. |
| MailStore.EncodeUriComponent | background.js:317 | The encoding holds only unreserved characters, '%' and upper-case hex digits. |
| MailStore.MailTask | background.js:308-319 | A mail task has id course::title, the mail's title and course, the `mailto-task://` scheme, content type メール検知, and a deadline seven days after now. |
| MailStore.IndexOfId | background.js:324 | The first index whose id matches, and None exactly when no task has that id. |
| MailStore.Storage.ApplyMailUpdates | background.js:303-331 | The push/splice loop leaves `tasks == ApplyEvents(old(tasks), newItems, now)` and does not touch the processed ids. |
| MailStore.Storage.SaveProcessedIds | background.js:343-345 | Stores the processed-id set and leaves the tasks alone. |
| MailStore.ApplyEventProperties | background.js:307-326 | One event keeps ids unique and leaves portal (id-less) tasks unchanged. An added event leaves a task with its id. A submitted event removes the task with its id. A notification changes nothing. |
| MailStore.ApplyEventsPreserves | background.js:303-331 | A whole batch keeps ids unique and leaves the portal tasks exactly as they were. |
| MailStore.ApplyEventNoOps | background.js:311-325 | Adding an id already present, or submitting an id that is absent, changes nothing. |
| MailStore.SyncMessages | background.js:360-373 | The loop marks every listed id processed, fetches exactly the ids not processed before (first occurrence, in order), and collects their events; a failed mail contributes none. |
| MailStore.NewIdsProperties | background.js:362-364 | An id is fetched exactly when it is listed and was not processed before, and no id is fetched twice. |
| MailStore.OnGmailSync | background.js:351-389 | For another alarm, or a failed listing, nothing is stored. Otherwise the processed set grows by the listed ids, and the tasks become the old tasks with the fetched mails' events applied. |
| Popup.FormatRemainingTimeCases | popup.js:4-30 | No deadline gives 締切不明 and a deadline not ahead gives 締切済み. Under an hour gives あとN分 with N = max(1, ⌊min⌋). Under a day gives あとN時間 with 1 ≤ N ≤ 23. Otherwise あとN日 with N = ⌊hours/24⌋ ≥ 1. |
| Popup.BuildTargetUrl | popup.js:40-54 | The link is the parsed href exactly when the url is non-empty and parses with protocol http: or https:, and the portal's task page in every other case (empty url, parse failure, other protocol). |
| Popup.MailTaskUrlPlain | background.js:317 | A mail task's url starts with a letter and holds no tab, line feed or carriage return, so the URL parser strips or removes nothing from it. |
| Popup.BuildTargetUrlOfMailTask | popup.js:40-54 | A mail task's `mailto-task://` link always falls back to the portal's task page, for any URL parser that reports the leading scheme of such plain text. |
| Popup.SortByDue | popup.js:61-65 | The order is a permutation of the stored tasks, sorted by the comparator. |
| Popup.SortByDueOrder | popup.js:61-65 | Undated tasks come first, then non-decreasing deadlines; nothing is lost or duplicated. |
| Popup.SortByDueStable | popup.js:61-65 | Tasks with equal deadlines keep their stored order (the sort is stable). |
| Content.NormalizeDeadlineProperties | content.js:7-14 | The normalised text has no 年, 月, 日, －, ー or '-' left, no leading or trailing white space, no two white-space characters in a row and no space but ' ', and the same non-space characters as the mapped text. |
| Content.ParseDeadline | content.js:4-21 | Empty text gives no date; otherwise the normalised text's parse when it succeeds, and the raw text's parse (`Date.parse(dueText)`) when it does not. |
| Content.MergeUrls | content.js:60-72 | The stored urls after the merge are exactly the scraped urls: every kept or added record has a scraped url, and every scraped url is present. |
| Content.MergeRecords | content.js:66-72 | Old records whose url was scraped again are kept as they were, ahead of the newly added ones, and every record comes from the old or the scraped list. |
| Content.MergeDropsMailTasks | content.js:66 | A stored mail task is dropped by any scrape of portal tasks. |
| Content.MergeIdempotent | content.js:60-72 | Merging the same scrape twice changes nothing the second time: nothing is added again. |
| Content.OnPageScraped | content.js:75-95 | An empty scrape leaves storage alone; otherwise the tasks become the merge and `lastUpdated` becomes now. |
| Content.OnPageScrapedUrls | content.js:60-95 | After a non-empty scrape the stored urls are exactly the scraped urls. |
| Utf8.DecodeEncode | background.js:264-266 | The RFC 3629 decoder, which TextDecoder applies after its byte-order-mark check, gives the text back from its UTF-8 encoding. |
| Utf8.EncodeDecode | background.js:57-58 | Octets the RFC 3629 decoder accepts re-encode to themselves: UTF-8 is a bijection on valid input. |
| Utf8.TextDecodeEncode | background.js:59 | TextDecoder reads the UTF-8 encoding of a text back as the text less one leading U+FEFF (`"77u/YQ=="`, i.e. EF BB BF 61, gives "a"). |
| Utf8.TextDecodeInverse | background.js:59 | Octets TextDecoder accepts are the UTF-8 form of its result, with or without EF BB BF in front. |
| Base64.DecodeEncode | background.js:42-60 | atob inverts btoa on every octet string. |
| Base64.DecodeEncodeWithoutPadding | background.js:264 | atob also accepts the unpadded encoding Gmail may send. |
| Base64.EncodeShape | background.js:49 | The encoding has length 4·⌈n/3⌉ (`4 * ((n + 2) / 3)`), holds only alphabet characters and '=', and '=' only in its last two places (none when n is a multiple of 3). |
| JsString.NatToStringRoundTrip | background.js:100-124 | The decimal digits of an offset read back as the offset. |
| JsString.JoinSplit | background.js:280 | Splitting on a separator and joining with it gives the text back. |

## Left out

- I/O with the browser and Google: `chrome.storage` callbacks, `chrome.identity` (`getGmailToken`), `fetch` of the message list (`fetchBeefMailIds` with its page tokens) and of each message. Their outcomes are parameters (`listing`, `respond`). The 401 handling that drops a cached token only touches that cache, so it is not modelled.
- DOM work: `parseTasks` (reading the portal's task rows), popup rendering, `formatDue`/`toLocaleString` and the notification's text in `createNotification`. The notification is modelled as a `Notice(task, hours)` value.
- Date parsing (`new Date`, `Date.parse`) and the `URL` constructor are parameters. Dates are stored as millisecond integers, not ISO strings.
- Interleaving of asynchronous callbacks: the clear-all callbacks of the storage.onChanged handler are modelled as a phase that clears every `notify-` alarm before scheduling starts. Storage reads and writes by different listeners are assumed not to overlap.
- `gmailSync` being periodic: its alarm is a registry entry with a fire time, and the period is not modelled.
- Strings are sequences of Unicode scalar values, not UTF-16 code units. `encodeURIComponent` therefore cannot throw on a lone surrogate here.
- AlarmCodec.DecodeBase64: octets that are not valid UTF-8 are an error here. `TextDecoder` would substitute U+FFFD instead. Only tokens the extension itself builds are guaranteed to decode.
- Mime.DecodeBody: malformed UTF-8 gives `InvalidUtf8`, where `TextDecoder` would substitute U+FFFD and go on. The mail is then dropped rather than parsed.
- Popup.SortByDue: a stored deadline that does not parse (`NaN` in the comparator) is not modelled. A deadline is either absent or a valid instant.
- Logging (`console.log`, `logError`).
- The worked plan for a deadline 30 minutes ahead follows the code: no alarm and no notification, since only deadlines at most one minute ahead are announced at once (`Scheduler.PlanExamples`).
- A key or mail text starting with U+FEFF loses that character on decoding, as `TextDecoder` drops it. A task whose url starts with it is never found by its reminders (`Scheduler.OnAlarmMissesBomUrl`).
- Reminder dispatch looks tasks up by url only, as written. A task without a url is scheduled under its title or deadline, and its reminders never find it (`Scheduler.OnAlarmOfAlarmName`).
