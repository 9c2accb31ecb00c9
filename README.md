# vscode-pinterest core, modelled in Dafny

This project models the core of the vscode-pinterest editor extension. The
extension fetches Pinterest's deciders (feature switches with a ramp value)
and experiments from an internal API. It stores them as one snapshot in the
editor's persisted state. From that snapshot it offers completions for record
keys typed inside quotes. The repository also holds a hover provider, which
shows a record's details when the mouse rests on its key, and an older
completion provider. Activation (src/extension.ts:11-33) registers only the
refresh command and the newer completion provider; the hover provider and the
older completion provider are defined but never registered, and the model
covers them as the code defines them.

The model covers five parts:

- **Ingestion** (`request.dfy`, module `Request`). It builds the request URL and its query parameters. It drops deciders whose value is `-1` or missing. It tags every record as a decider or an experiment.
- **Snapshot store and cache refresh** (`store.dfy`, `cache.dfy`). The store is a class over the persisted state map. Its entry under `"Pinterest"` is replaced wholesale only when both fetches succeed. The cache refresh absorbs any failure, logs it and tracks it.
- **Completion gate** (`trigger.dfy`). Both completion providers share it:
  - the first-100-lines eligibility test;
  - the trailing quoted-token trigger `(['"][\w-_]+)$`;
  - the choice of candidate list by the words in the line prefix;
  - removing the quotes to form the search query.
- **The two completion providers** (`completion.dfy` is the registered one, `legacy_completion.dfy` the older one).
  - They differ in which word wins when the line mentions both kinds.
  - They also differ in what each item shows. The older provider has its own copies of the formatting helpers.
- **The detail formatter and the hover provider** (`info.dfy`, `hover.dfy`).
  - The formatter handles description escapes and `[[url|text]]` links, the decider ramp, the experiment ramp table, the owner lines, the date lines, the order of the sections, and the detail string.
  - The hover looks keys up exactly, and deciders win over experiments.

Shared pieces:

- `wrappers.dfy`: `Option`, `Result`, `Outcome`.
- `strings.dfy`: the string operations JavaScript provides, such as split, join, includes, ASCII lowercase, trim and number formatting.
- `types.dfy`: the record shapes, with the `type` tag as a sum type.
- `output.dfy`: the debug log and the telemetry tracker, as classes that collect what is sent to them.
- `editor.dfy`: the completion item, range and hover values.

The fuzzy search, the network and the locale date formatting are inputs to the model:

- The search is a function argument.
- Fetch outcomes are `Result` values.
- Date and time formatting is a pair of functions in `Info.Locale`.

## Model

| member | source | states |
|---|---|---|
| Strings.Split | src/completionProvider.ts:34-36 | Splitting on a character gives at least one part. There is exactly one part when the character does not occur. No part contains it. Joining the parts with it gives back the text. |
| Strings.Unescape | src/experimentDeciderInfo.ts:15-16 | No backslash-letter pair remains afterwards. Text without that backslash-letter pair is unchanged, even when it holds other backslashes. The result is empty only for empty text. Its first character is a space exactly when the text opens with the pair. |
| Strings.UnescapeAppend | src/experimentDeciderInfo.ts:15-16 | The replacement works on two texts independently unless a backslash ending the first and the letter opening the second form a pair. |
| Strings.UnescapeEscape | src/experimentDeciderInfo.ts:15-16 | A backslash-letter pair between two texts becomes exactly one space between their replaced forms. |
| Strings.Trim | src/experimentDeciderInfo.ts:40 | `trim` gives a slice of the text with only white space cut from either side, and the slice neither starts nor ends with white space. Text without surrounding white space is unchanged. |
| Strings.TrimLeadingSpace | src/experimentDeciderInfo.ts:40 | A leading white-space character does not change what `trim` gives. |
| Strings.SplitJoin | src/experimentDeciderInfo.ts:38-42 | Splitting on a character undoes joining parts that do not contain it. |
| Strings.JoinAppend | src/experimentDeciderInfo.ts:53-54 | Joining two lists of parts is joining each and putting the separator between them, when both are non-empty. |
| Strings.LowerWithoutCapitals | src/completionProvider.ts:40-41 | Lower-casing leaves text without ASCII capitals unchanged. |
| Strings.LowerIdempotent | src/completionProvider.ts:66-68 | Lower-casing twice is the same as lower-casing once. |
| Strings.NatToString | src/completionProvider.ts:88 | `String(n)` gives decimal digits without a superfluous leading zero that read back as n. |
| Strings.NatToStringOfDigits | src/completionProvider.ts:88 | Every digit string without a superfluous leading zero is what `String` gives for its value, so the text of a number is unique. |
| Strings.IntToString | src/experimentDeciderInfo.ts:22 | `String(i)` has a minus sign exactly for a negative number, then canonical digits that read back as its magnitude. |
| Strings.IncludesMeans | src/completionProvider.ts:40-41 | `includes` holds exactly when the searched text occurs at some position. |
| Request.SetParam | src/request.ts:18-22 | `searchParams.set` leaves exactly one entry for the key, holding the new value. Every other key keeps its value, and keys stay unique. |
| Request.BuildUrl | src/request.ts:15-22 | The URL is `https://capi.pinadmin.com/api/<path>`. Without fields there are no query parameters. Otherwise each field key maps to the last value given for it, and no key repeats. |
| Request.Serialize | src/request.ts:24 | The logged URL opens with the address and has a query after "?" exactly when there are search parameters. |
| Request.Get | src/request.ts:6-24 | The same URL as BuildUrl, with exactly one "Request data from …" line appended to the log. |
| Request.Live | src/request.ts:55-56 | A decider is kept when its value is present and not -1; a missing value or -1 drops it. |
| Request.TagDeciders | src/request.ts:53-57 | Every output element is a decider-tagged record. Each is live (value neither `-1` nor missing) and is one of the input deciders. There are no more outputs than inputs. |
| Request.TagExperiments | src/request.ts:43 | The output has the same length as the input, and every element is an experiment-tagged record. |
| Request.ExperimentsRoundTrip | src/request.ts:36-44 | Removing the tags gives back the input experiments, in order, with no field changed. |
| Request.DecidersRoundTrip | src/request.ts:53-57 | Removing the tags gives exactly the live input deciders, in input order, with no field changed. |
| Request.TagDecidersAppend | src/request.ts:53-57 | Ingestion distributes over concatenation, so the output order is the input order. |
| Request.TagDecidersCount | src/request.ts:53-57 | A live decider appears in the output as often as in the input, and a dead one never appears; nothing is deduplicated. |
| Request.FilterExample | src/request.ts:53-57 | Deciders `growth_feature_a` (value 50) and `growth_feature_b` (value -1) give only `growth_feature_a`, tagged "decider". |
| Request.FetchDeciders | src/request.ts:46-58 | Logs the deciders request. A successful response gives the ingested deciders. A failed one gives the same error. |
| Request.FetchExperiments | src/request.ts:36-44 | Logs the experiments request. A successful response gives the tagged experiments. A failed one gives the same error. |
| RecordStore.Store.Get | src/store.ts:11-16 | Gives exactly the value stored under "Pinterest", or nothing if that key was never written. It reads only the state. |
| RecordStore.Store.Update | src/store.ts:18-30 | Succeeds exactly when both fetches succeed, and then writes one snapshot under "Pinterest" holding the clock reading and both ingested lists. All other keys are left alone. A failure reports a failed fetch's message and leaves the state unchanged. Both request lines are logged, then "Cache: Updated" on success only. |
| Cache.Update | src/cache.ts:5-19 | Never fails. On success the effect is exactly the store update's, with nothing tracked. On failure the state is unchanged. The log gains the two request lines, then the error's message, then the fixed VPN message. Exactly one Error/Error event with that message is tracked. |
| Info.LinkAt | src/experimentDeciderInfo.ts:18 | A match at a position is a `[[` there, then a `\|` and after it a `]]`, all on one line: none of the characters from the `[[` to the end of the `]]` is a line terminator. |
| Info.LinkAtGreedy | src/experimentDeciderInfo.ts:18 | Both groups are greedy. A match closes at the last `]]` before the line ends, and splits at the last `\|` before that `]]`. When a `[[` opens but nothing matches, no `\|` precedes any `]]` on that line. |
| Info.LoneLink | src/experimentDeciderInfo.ts:17-18 | Text with a single link `[[U\|T]]`, where U and T contain no `\|` and no line break and the rest holds no brackets, has the link rewritten to `[T](U)` and everything else unchanged. |
| Info.ReplaceSingleLink | src/experimentDeciderInfo.ts:17-18 | When one match is found and no `[` lies before it or after it, only that match is rewritten, to `[T](U)`, and the text around it is copied. |
| Info.ReplaceLinks | src/experimentDeciderInfo.ts:18 | Text without `[` is left unchanged by the link rewrite. |
| Info.ReplaceLinksLines | src/experimentDeciderInfo.ts:18 | Because `.` never matches a line terminator, the rewrite works line by line: rewriting two texts joined by a line terminator is rewriting each and joining them with it. |
| Info.Normalise | src/experimentDeciderInfo.ts:14-16 | After both replacements no backslash-n or backslash-r escape remains. Text holding neither escape is unchanged, even when it holds other backslashes. |
| Info.NormaliseEscape | src/experimentDeciderInfo.ts:14-16 | A backslash-n or backslash-r anywhere becomes one space, and the text on each side is replaced on its own. |
| Info.ParseDescription | src/experimentDeciderInfo.ts:10-19 | An absent or empty description gives "Description: (empty)". Any other description gives text starting with "Description: ". |
| Info.DescriptionWithoutLink | src/experimentDeciderInfo.ts:10-19 | A non-empty description without `[` renders as "Description: " followed by the text with both escapes replaced, nothing else changed. |
| Info.DescriptionLink | src/experimentDeciderInfo.ts:14-18 | A description holding a single well-formed link and no backslash renders as "Description: " and the text with that link in markdown form. |
| Info.DeciderValue | src/experimentDeciderInfo.ts:21-23 | Ends in "%". A missing value gives "undefined%". A known value gives canonical digits that read back as it, after a minus sign exactly when it is negative. |
| Info.RampRow | src/experimentDeciderInfo.ts:96 | A row opens with "\| ", the group and " \| \`", holds the percent, and ends with "%\` \|". It stays on one line when the group and percent do. |
| Info.AppendRows | src/experimentDeciderInfo.ts:91-98 | The reduce keeps the accumulator as a prefix and appends exactly one row per group, in order, in the form "\| group \| \`percent%\` \|". |
| Info.RampTable | src/experimentDeciderInfo.ts:101-103 | The table is the header row, a newline, the alignment row, a newline, and then the rows joined by newlines. |
| Info.RampTableLayout | src/experimentDeciderInfo.ts:91-103 | For one or more groups whose names and percents hold no newline, the table's lines are exactly the header, the alignment row and one row per group. |
| Info.RampInfo | src/experimentDeciderInfo.ts:66-111 | A decider gives "Ramp: " and its value, with no request. An experiment whose history request fails or returns nothing gives "Ramp: (Could not fetch data)". Otherwise the result is the table of the first history entry, opening with the header and alignment rows. |
| Info.DeciderRampIsLocal | src/experimentDeciderInfo.ts:67-68 | A decider's ramp does not depend on any history response. |
| Info.OwnerLink | src/experimentDeciderInfo.ts:41 | An owner's link is labelled "@" and the name, and points at the directory address followed by the name. |
| Info.OwnerLinks | src/experimentDeciderInfo.ts:39-42 | A lone owner without surrounding white space gives exactly that owner's link. |
| Info.OwnerLinksOfNames | src/experimentDeciderInfo.ts:39-42 | Any one or more names without commas, listed with commas, give one link per name with its surrounding white space trimmed, in order, joined by " / ". |
| Info.OwnerLinksOfTrimmedNames | src/experimentDeciderInfo.ts:39-42 | Names that already have no surrounding white space are linked as written. |
| Info.TwoOwners | src/experimentDeciderInfo.ts:39-42 | Two names written "a, b" give the link of a, " / ", then the link of b: the space after the comma is trimmed away. |
| Info.OwnerLabel | src/experimentDeciderInfo.ts:38 | "Owners" exactly when the field has a comma, that is, splits into more than one part; "Owner" otherwise. |
| Info.ExperimentOwnerLine | src/experimentDeciderInfo.ts:37-43 | There is an owner line exactly when the owners field is non-empty. It opens with the label and ": ". |
| Info.ExperimentOwners | src/experimentDeciderInfo.ts:37-43 | For a non-empty owners field listing one or more comma-free names, the line is "Owners" for more than one name ("Owner" for one), ": ", then each trimmed name's link, joined by " / ". |
| Info.TeamLine | src/experimentDeciderInfo.ts:44 | There is a team line exactly when the experiment has a non-empty team. |
| Info.DeciderOwnerLine | src/experimentDeciderInfo.ts:45-51 | The line comes from the first that applies of: the LDAP name, the owner profile, or the bare owner marked "(Suspended / deactivated account)". Each case's label and link target are stated. There is no line exactly when none applies. |
| Info.LdapOwnerLine | src/experimentDeciderInfo.ts:45-46 | The LDAP line is "Owner: [", the resolved name and "]", then a link to the directory address followed by the decider's `ldap` field (shown as "undefined" when absent). |
| Info.LdapOwnerLineUndefined | src/experimentDeciderInfo.ts:46 | Without an `ldap` field the link points at the directory address followed by "undefined". |
| Info.ProfileOwnerLine | src/experimentDeciderInfo.ts:47-48 | The profile line is the full name linked to the Pinterest profile of the username, then an AdminApp link to the admin page of the decider's `owner` field. |
| Info.SuspendedOwnerLine | src/experimentDeciderInfo.ts:49-50 | The bare-owner line is "Owner: [", the owner and "]", then a link to the owner's admin page, then "(Suspended / deactivated account)". |
| Info.OwnerInfo | src/experimentDeciderInfo.ts:35-55 | A decider's owner section is its owner line alone. An experiment's is the owner line and then the team line, each only when present, joined by a markdown line break. |
| Info.ParseDateTime | src/experimentDeciderInfo.ts:25-33 | The date of the timestamp read as UTC, then " at ", then its time. |
| Info.DateInfo | src/experimentDeciderInfo.ts:57-64 | Always ends with "Last Updated: …". It starts with "Created: " exactly when a creation time is known, and that line is followed by a line break. |
| Info.DateInfoFiltered | src/experimentDeciderInfo.ts:57-64 | The date text equals the creation line (empty when there is no creation time) and the update line, with empty lines filtered out, joined by "  \n". |
| Info.LinkLine | src/experimentDeciderInfo.ts:128-132 | An experiment links to its URL as "Helium", a decider as "Adminapp". |
| Info.Sections | src/experimentDeciderInfo.ts:120-134 | Five sections, in order: one opening with "Description: ", the ramp, the owner section, one opening with "Link: [", and one ending with the last update. |
| Info.GetInfo | src/experimentDeciderInfo.ts:113-138 | No record gives no markdown. A record gives trusted markdown whose text is the description, ramp, owner, link and date sections joined by blank lines, in that order. |
| Info.GetDetail | src/experimentDeciderInfo.ts:140-142 | "(decider)" exactly for deciders and "(experiment)" exactly for experiments. |
| Info.BareDeciderSections | src/experimentDeciderInfo.ts:113-138 | A decider at 50% with no optional fields has the sections: empty description, "Ramp: 50%", an empty owner section, the Adminapp link, and the last update. |
| Info.BareDeciderDetail | src/experimentDeciderInfo.ts:113-138 | Its rendered detail keeps the separators around the empty owner section. |
| Info.ExperimentRampFailure | src/experimentDeciderInfo.ts:104-138 | An experiment whose history request fails shows its description and then "Ramp: (Could not fetch data)" as its first two sections. |
| Trigger.Lines | src/completionProvider.ts:34-36 | The document splits into at least one line, and the lines joined by newlines give back the document. |
| Trigger.Leading | src/completionProvider.ts:37 | The first `min(100, number of lines)` lines, as a prefix of all lines. |
| Trigger.AnyMentionsMeans | src/completionProvider.ts:38-42 | `some` holds exactly when one line mentions "experiment" or "decider", ignoring ASCII case. |
| Trigger.Eligible | src/completionProvider.ts:33-45 | The document is eligible exactly when one of its first 100 lines mentions a record kind. |
| Trigger.EligibleIgnoresTail | src/completionProvider.ts:37 | When the document already has 100 lines, appending more lines never changes eligibility. |
| Trigger.LinePrefix | src/completionProvider.ts:49-51 | The prefix opens the line and is as long as the cursor column, or the whole line when the column is past its end. |
| Trigger.KeyRunStart | src/completionProvider.ts:55 | The start of the maximal run of `[\w-]` characters that ends the prefix. |
| Trigger.MatchTrigger | src/completionProvider.ts:55 | A match is a quote followed by one or more key characters, and it ends the prefix. |
| Trigger.MatchTriggerComplete | src/completionProvider.ts:55-58 | There is no match exactly when no suffix of the prefix is a quote followed by key characters. |
| Trigger.TriggerAtRunStart | src/completionProvider.ts:55 | A suffix that matches starts right before the key run, so the match is unique. |
| Trigger.TriggerAfter | src/completionProvider.ts:55 | A prefix that ends in a quote followed by key characters matches exactly that token, whatever comes before it. |
| Trigger.Unquote | src/completionProvider.ts:73 | The query has no quote characters, and holds exactly the token's other characters. |
| Trigger.UnquoteAppend | src/completionProvider.ts:73 | Quotes are removed piece by piece: the query of two texts joined is the two queries joined, so the remaining characters keep their order and number. |
| Trigger.UnquoteChar | src/completionProvider.ts:73 | A single character is dropped exactly when it is a quote, and kept otherwise. |
| Trigger.QueryOfTrigger | src/completionProvider.ts:73 | The query of a matched token is the token without its leading quote. |
| Trigger.Candidates | src/completionProvider.ts:62-70 | The list searched is deciders for "decider" alone and experiments for "experiment" alone. With both words it is the priority's kind. With neither it is the deciders followed by the experiments. |
| Trigger.PrioritiesAgree | src/completionProvider.ts:62-70 | The two providers' choices differ only on lines mentioning both words. |
| Trigger.DeciderCallTrigger | src/completionProvider.ts:55-73 | Typing `decider('grow` matches `'grow` and searches for "grow". |
| Trigger.DeciderCallCandidates | src/completionProvider.ts:62-70 | On that line both providers search the deciders. |
| Completion.AutocompletionEvent | src/completionProvider.ts:84-89 | The count event has category "Event", action "Count" and label "Autocompletion". Its value is canonical digits that read back as the number of results. |
| Completion.Trace | src/completionProvider.ts:26-60 | The first debug line shows the store instance. All four lines are logged exactly when every gate passes. |
| Completion.Gate | src/completionProvider.ts:26-60 | Passes exactly when a snapshot exists, the document is eligible and the prefix ends in a trigger. It then hands on the snapshot, the prefix and the matched token. The debug log grows by the trace. |
| Completion.Search | src/completionProvider.ts:62-89 | The items are those offered for the search over the experiment-first candidates, with the token unquoted. Exactly one count event with the number of results is tracked. |
| Completion.Offered | src/completionProvider.ts:95-115 | One item per result, in order, labelled with its key, of kind Text, with no detail and the trusted "*test*" documentation. |
| Completion.ProvideCompletionItems | src/completionProvider.ts:22-116 | Returns items exactly when a snapshot exists, the document is eligible and the prefix ends in a trigger. The items are then those offered for the search, over the experiment-first candidates, of the unquoted token, and one count event is tracked. Otherwise nothing is tracked. The debug log grows by the trace. |
| LegacyCompletion.Description | src/DeciderExperimentCompletionItemProvider.ts:9-14 | An absent or empty description gives "Description: (empty)". Otherwise the text follows "Description: " with no backslash-n or backslash-r left. Text holding neither escape is shown as written, links and other backslashes included. |
| LegacyCompletion.DescriptionEscape | src/DeciderExperimentCompletionItemProvider.ts:13 | Each backslash-n or backslash-r in a description is shown as one space. |
| LegacyCompletion.DescriptionAgrees | src/DeciderExperimentCompletionItemProvider.ts:9-14 | On text without `[` the older and newer description helpers agree. |
| LegacyCompletion.OwnerInfoAgrees | src/DeciderExperimentCompletionItemProvider.ts:30-50 | The older owner section equals the newer one for every decider, and for every experiment whose owner field has no comma. |
| LegacyCompletion.OwnerInfo | src/DeciderExperimentCompletionItemProvider.ts:30-50 | A decider's owner section is its owner line. An experiment with owners is exactly "Owner: " and the owner links, however many owners there are, followed by a line break and the team line when it has a team. One without owners has only its team line. |
| LegacyCompletion.DateTime | src/DeciderExperimentCompletionItemProvider.ts:20-28 | The date of the timestamp read as UTC, a space, then its time. |
| LegacyCompletion.DateInfo | src/DeciderExperimentCompletionItemProvider.ts:52-59 | With a creation time: "Created At: …", a line break, then "Last Updated: …". Without one: only "Last Updated: …". |
| LegacyCompletion.Documentation | src/DeciderExperimentCompletionItemProvider.ts:133-153 | Trusted markdown opening with a "Helium Link" (experiment) or "Adminapp Link" (decider) to the URL, then the description, a blank line apart. Next comes exactly the owner section, then a blank line, and the text ends with the dates. |
| LegacyCompletion.Detail | src/DeciderExperimentCompletionItemProvider.ts:154-157 | A decider's detail is "Ramp: ", its value, a space and "(decider)". An experiment's is "(experiment)". |
| LegacyCompletion.Offered | src/DeciderExperimentCompletionItemProvider.ts:128-160 | One item per result, in order: key, Text, the detail and the trusted documentation. |
| LegacyCompletion.ProvideCompletionItems | src/DeciderExperimentCompletionItemProvider.ts:67-162 | The same gates as the registered provider. The search runs over the decider-first candidates, gives the offered items and tracks one count event. The activation line is logged in every case. |
| HoverProvider.Keys | src/DeciderExperimentHoverProvider.ts:41-47 | One key per record, in order. |
| HoverProvider.FirstIndex | src/DeciderExperimentHoverProvider.ts:53-54 | Where `find` stops: the first record with the key, with no earlier record having it. Nothing when no record has it. |
| HoverProvider.Find | src/DeciderExperimentHoverProvider.ts:53-54 | Nothing exactly when the key is absent. Otherwise the first record with that key. |
| HoverProvider.Lookup | src/DeciderExperimentHoverProvider.ts:51-55 | Nothing exactly when the name is neither a decider key nor an experiment key, compared exactly. A found record has that key. When a decider has the key, the first such decider is chosen. |
| HoverProvider.LookupGuardRedundant | src/DeciderExperimentHoverProvider.ts:51-55 | The `includes` guard changes nothing: the lookup is the decider search, else the experiment search. |
| HoverProvider.DeciderShadowsExperiment | src/DeciderExperimentHoverProvider.ts:51-55 | When a decider and an experiment share a key, the decider is shown. |
| HoverProvider.Trace | src/DeciderExperimentHoverProvider.ts:39-61 | With a word and a snapshot, the three fixed lines are logged, plus the key line exactly when a record is found. |
| HoverProvider.ProvideHover | src/DeciderExperimentHoverProvider.ts:22-71 | Returns a hover exactly when there is a word, a snapshot and a record with that key. The hover covers the word's range and shows trusted markdown holding that record's full detail. The debug log grows by the trace. |

## Left out

- The Fuse.js fuzzy search is not modelled; both providers take it as a function argument, so nothing is said about its threshold or ranking.
- Fetching, JSON decoding and the Helium ramp-history request are not modelled; their outcomes are `Result` inputs. The ramp groups are a list kept in the order given, whereas `Object.entries` (src/experimentDeciderInfo.ts:91) lists integer-like keys first, in ascending order, before the other keys in insertion order; the model's order is the one after that reordering.
- Info.DeciderValue, Request.Live, LegacyCompletion.Detail: `currentValue` is a JavaScript number (src/types.ts:7) and the model keeps it as an optional integer. Fractional values (which the source prints as, say, "12.5%") and `null` are not represented; `null` would pass the filter at src/request.ts:55-57, which only drops `-1` and `undefined`.
- The one-second timeout around the history request is timing behaviour and is left out. The `AbortController` it fires is created once per module (src/experimentDeciderInfo.ts:8), not per request. Once one history request has timed out, the signal stays aborted, so every later history request fails at once and every experiment shows "Ramp: (Could not fetch data)" for the rest of the session. The model takes each request's outcome as an independent input, so it allows that outcome but does not capture that it persists.
- Percent rounding (`Math.round(percent * 1000) / 10`) is floating point, so a group's percent is kept as opaque text.
- Locale date and time formatting is left out: both are functions supplied in `Info.Locale`, and only the appended "Z" and how the two parts are joined are modelled.
- `new URL(...)` normalisation and percent-encoding of query values are left out; the URL is its base, path and parameter list.
- HoverProvider.ProvideHover: `new URL(item.url)` (src/experimentDeciderInfo.ts:131) throws when a record's URL is not absolute, the empty string for one. `getInfo` then rejects and no hover is shown. The model renders the URL as stored, so its "exactly when" holds only for records whose URL is absolute.
- Info.GetInfo: for the same reason the source gives no markdown for a record whose URL is not absolute; the model always gives the five sections.
- LegacyCompletion.ProvideCompletionItems: `new URL(item.url)` (src/DeciderExperimentCompletionItemProvider.ts:138) throws for such a record after the count event was tracked, so the whole list fails; the model offers the items.
- Cache.Update: the model applies a refresh as one step. In the source two `updateCache` commands can overlap; their "Request data from" lines then interleave in the log and the refresh that completes last decides the stored snapshot.
- Word-range detection under the mouse is editor behaviour; the hover takes the word and its range as an input.
- Trigger.LinePrefix, Completion.Gate: `position.character` and `substr` count UTF-16 code units, while the model counts characters. On a line holding a character outside the Basic Multilingual Plane, such as an emoji, the source cuts the prefix at a different place.
- Lowercasing is ASCII only; Unicode case mapping is not modelled.
- src/track.ts (telemetry over HTTP), src/extension.ts (activation), src/context.ts, src/configuration.ts and src/packageJSON.ts are not part of this model; tracking is a list of recorded events.
- The log module is not part of this model; the log is a list of appended lines.
- `console.log` and `console.error` output and the `getRampInfo: …` log line are left out; the formatter takes the history outcome as a value.
- `isGroup` in the registered provider is computed and never used, so it is not modelled.
- The `!results` and `!markdownString` checks can never succeed (an array and a returned markdown are always truthy); the model keeps the second as an unreachable branch and drops the first.
- RecordStore.Store.Update: when both fetches fail, `Promise.all` rejects with whichever fails first. That is timing, so the contract only says the reported message is one of the failed fetches' messages.
- The persisted-state write is not awaited in the source; the model applies it at once.
- Nothing is sanitised or escaped: owner, team and description text go into trusted markdown raw, as in the source.
- The last-update time is whatever the clock reads; the model does not claim it increases from one refresh to the next.
