# Fabric bot: mappings lookup and infraction pardons

This project models two command handlers of the Fabric Discord bot in Dafny and proves
properties of the model.

**Mappings commands.** `class`, `field` and `method` look up Yarn mappings for a Minecraft
version. The model covers four steps:

- how each command turns its optional version argument into a version;
- the `[a-z0-9.]+` case-insensitive version check;
- the early-return chain that chooses the reply: still loading, invalid version, no mappings,
  no matches, or paginate;
- `paginate`, which renders one page per result (names, descriptor and access-widener line)
  and builds the pluralised title.

**Infraction pardons.** The "unset" commands (unmute, unban and the like) pardon a member's
active infractions of one type. The model covers:

- the notice text built by `getInfractionMessage`;
- the mod-log description;
- the relay gate on the direct message;
- the pardon loop of `undoInfraction`.

Everything the handler does to the outside world is recorded as an `Event` in a returned
trace: posting a message, running the query, cancelling an expiry job, invoking the reversal
action, and sending the three notices. Ordering, completeness and "nothing for non-matching
infractions" are proved over that trace.

Modules:

- `Wrappers`: `Option`.
- `Text`: ASCII case mapping, `capitalize`, prefixes and suffixes, splitting on a separator.
- `Decimal`: decimal rendering of numbers, and its round trip.
- `MappingsVersion`: version resolution and the version pattern.
- `MappingsPages`: the page and title serialiser, and the `paginate` loop.
- `MappingsCommands`: the reply chain shared by the three commands.
- `InfractionNotices`: notice texts, embeds and the role gate.
- `InfractionUnset`: the event trace and the pardon loop. A batch pardon is `Concat`, one
  step per infraction laid end to end. Its inductions are proved once for any step function
  with the property of one pardon, and then applied to the real step.

The mappings manager's lookup is an input map from version to results. A version missing from
the map stands for a `null` lookup. The active-infraction query is a filter over an input store
of infractions. The clock is left out; Discord and the scheduler appear only as trace events.

## Model

| member | source | states |
|---|---|---|
| MappingsVersion.AbsentMeansLatestRelease | src/main/kotlin/net/fabricmc/bot/extensions/MappingsExtension.kt:97-98 | With no version argument, `class` and `field`/`method` all resolve to the latest release. |
| MappingsVersion.OtherVersionsPassThrough | src/main/kotlin/net/fabricmc/bot/extensions/MappingsExtension.kt:97-104 | A version whose lowercase form is neither `release` nor `snapshot` is returned exactly as typed, case included, by every command. |
| MappingsVersion.ClassAliasPrefersCache | src/main/kotlin/net/fabricmc/bot/extensions/MappingsExtension.kt:100-101 | In `class`, an alias in any case resolves to the cached version name under its lowercase key when there is one, else to the latest release or snapshot. |
| MappingsVersion.MemberAliasIsLatest | src/main/kotlin/net/fabricmc/bot/extensions/MappingsExtension.kt:161-168 | In `field` and `method`, an alias in any case resolves to the latest release or snapshot itself; the cached names play no part. |
| MappingsVersion.ResolutionsDiffer | src/main/kotlin/net/fabricmc/bot/extensions/MappingsExtension.kt:225-232 | The `class` and member resolutions differ if and only if an alias was given and the cache holds a name for it that is not the latest version. |
| MappingsVersion.ResolutionsAgreeWithoutCache | src/main/kotlin/net/fabricmc/bot/extensions/MappingsExtension.kt:164-165 | With no cached alias names, `class` resolves every argument exactly as `field` and `method` do. |
| MappingsVersion.VersionClassIff | src/main/kotlin/net/fabricmc/bot/extensions/MappingsExtension.kt:18 | A character matches `[a-z0-9.]` ignoring case if and only if it is an ASCII letter of either case, a digit or a dot. |
| MappingsVersion.VersionRegexIff | src/main/kotlin/net/fabricmc/bot/extensions/MappingsExtension.kt:18 | A version fully matches `[a-z0-9.]+` ignoring case if and only if it is non-empty and every character is an ASCII letter, digit or dot. |
| MappingsPages.ClassWidenerFields | src/main/kotlin/net/fabricmc/bot/extensions/MappingsExtension.kt:287-288 | A class-only widener line splits on tabs into `accessible`, `class` and the named class. |
| MappingsPages.MemberWidenerFields | src/main/kotlin/net/fabricmc/bot/extensions/MappingsExtension.kt:300-307 | A member widener line splits on tabs into `accessible`, the kind, the class, the member and the descriptor. |
| MappingsPages.AccessWidenerFields | src/main/kotlin/net/fabricmc/bot/extensions/MappingsExtension.kt:286-307 | For tab-free names, the widener line's fields are exactly the class-only or member fields, chosen by whether the result has a member. |
| MappingsPages.AccessWidenerKind | src/main/kotlin/net/fabricmc/bot/extensions/MappingsExtension.kt:295 | For a member result, the line has five fields, and the second field is `method` exactly when the member is a method definition. |
| MappingsPages.PageLayout | src/main/kotlin/net/fabricmc/bot/extensions/MappingsExtension.kt:281-308 | Every page opens with the class-names section and closes with the fenced widener line. The access-widener heading follows the class names directly exactly when there is no member. |
| MappingsPages.RenderPage | src/main/kotlin/net/fabricmc/bot/extensions/MappingsExtension.kt:275-310 | Appending the sections one by one to an empty page yields the page defined by `Page`. |
| MappingsPages.TitlePlural | src/main/kotlin/net/fabricmc/bot/extensions/MappingsExtension.kt:316 | The title ends in " results" for more than one result and in " result" otherwise; it ends in "s" exactly when there is more than one. |
| MappingsPages.TitleDeterminesCount | src/main/kotlin/net/fabricmc/bot/extensions/MappingsExtension.kt:316 | Two titles for the same version are equal only when they announce the same number of results. |
| MappingsPages.Paginate | src/main/kotlin/net/fabricmc/bot/extensions/MappingsExtension.kt:273-311 | Exactly one page per result, in result order, each the rendering of its result, under the title for the version and the result count. |
| MappingsCommands.ReplyTextInjective | src/main/kotlin/net/fabricmc/bot/extensions/MappingsExtension.kt:115-137 | Different refusals produce different texts, so the text determines the refusal and its version or noun. |
| MappingsCommands.Action | src/main/kotlin/net/fabricmc/bot/extensions/MappingsExtension.kt:96-139 | An unresolved version gives "still loading" with no lookup, and a version failing the pattern gives "invalid" with no lookup. Otherwise that version is looked up: a missing lookup gives "no mappings", an empty one "no matches", and a non-empty one a paginated reply with the title and one page per result. |
| InfractionNotices.GetInfractionMessage | src/main/kotlin/net/fabricmc/bot/extensions/infractions/InfractionUnsetCommand.kt:74-92 | Building the message by successive appends yields `InfractionMessage`. |
| InfractionNotices.MessageOpening | src/main/kotlin/net/fabricmc/bot/extensions/infractions/InfractionUnsetCommand.kt:75-81 | The public message begins `<@!target> is no longer <action>.` and the private one `You are no longer <action>.`; both are followed by a blank line. |
| InfractionNotices.PublicOpeningNamesTarget | src/main/kotlin/net/fabricmc/bot/extensions/infractions/InfractionUnsetCommand.kt:76 | Two public notices of the same type open alike only when they mention the same member. |
| InfractionNotices.MessageReason | src/main/kotlin/net/fabricmc/bot/extensions/infractions/InfractionUnsetCommand.kt:83-89 | Text follows the blank line if and only if the reason is shown; it is then exactly the labelled reason, and the label is "Infraction Message" if and only if the type is a note. |
| InfractionNotices.ModLogDescription | src/main/kotlin/net/fabricmc/bot/extensions/infractions/InfractionUnsetCommand.kt:132-135 | Building the mod-log description by successive appends yields `ModLogText`. |
| InfractionNotices.ModLogLayout | src/main/kotlin/net/fabricmc/bot/extensions/infractions/InfractionUnsetCommand.kt:132-135 | The mod-log description is the public message with its reason, then the User ID line, then the Moderator line. |
| InfractionNotices.ReasonVisibility | src/main/kotlin/net/fabricmc/bot/extensions/infractions/InfractionUnsetCommand.kt:94-147 | The channel notice is the public message without a reason. The direct message ends with the reason line, and the mod-log entry opens with the public message and its reason. |
| InfractionNotices.TraineeGate | src/main/kotlin/net/fabricmc/bot/extensions/infractions/InfractionUnsetCommand.kt:184-188 | The role the command requires is Moderator exactly when the type is not for trainees, and TraineeModerator otherwise. |
| InfractionUnset.Filter | src/main/kotlin/net/fabricmc/bot/extensions/infractions/InfractionUnsetCommand.kt:160 | The filtered list is no longer than the original and holds exactly the elements that satisfy the predicate. |
| InfractionUnset.FilterSingleton | src/main/kotlin/net/fabricmc/bot/extensions/infractions/InfractionUnsetCommand.kt:160 | Filtering one element keeps it exactly when it satisfies the predicate. |
| InfractionUnset.FilterAppend | src/main/kotlin/net/fabricmc/bot/extensions/infractions/InfractionUnsetCommand.kt:160 | Filtering a concatenation is filtering each part and concatenating, so filtering keeps the input order and its duplicates. |
| InfractionUnset.MatchingAppend | src/main/kotlin/net/fabricmc/bot/extensions/infractions/InfractionUnsetCommand.kt:158-160 | The matches of a store made of two stretches are the matches of the first, then those of the second. |
| InfractionUnset.MatchingIff | src/main/kotlin/net/fabricmc/bot/extensions/infractions/InfractionUnsetCommand.kt:158-160 | An infraction is processed if and only if it is stored, active, the member's, and of the command's type. |
| InfractionUnset.PardonEventsEffects | src/main/kotlin/net/fabricmc/bot/extensions/infractions/InfractionUnsetCommand.kt:170-178 | Pardoning one infraction cancels its job and then reverses it, each once. The reversal carries the member's id and no expiry, and every effect is about that infraction. |
| InfractionUnset.PardonEventsRelay | src/main/kotlin/net/fabricmc/bot/extensions/infractions/InfractionUnsetCommand.kt:95 | Pardoning one infraction direct-messages its target if and only if the type is relayed. |
| InfractionUnset.PardonAllBlocks | src/main/kotlin/net/fabricmc/bot/extensions/infractions/InfractionUnsetCommand.kt:170-178 | A batch pardon is one block per infraction, in order. The k-th block opens with the k-th infraction's cancellation and then its reversal. |
| InfractionUnset.PardonAllReversals | src/main/kotlin/net/fabricmc/bot/extensions/infractions/InfractionUnsetCommand.kt:173 | A batch pardon's reversals are exactly one per infraction, in order, each with the member's id and no expiry. |
| InfractionUnset.PardonAllCancellations | src/main/kotlin/net/fabricmc/bot/extensions/infractions/InfractionUnsetCommand.kt:171 | A batch pardon's job cancellations are exactly the infractions' ids, in order. |
| InfractionUnset.PardonAllAbout | src/main/kotlin/net/fabricmc/bot/extensions/infractions/InfractionUnsetCommand.kt:170-178 | Every effect of a batch pardon is about an infraction of the batch. |
| InfractionUnset.PardonAllRelays | src/main/kotlin/net/fabricmc/bot/extensions/infractions/InfractionUnsetCommand.kt:95 | A batch pardon contains a direct message if and only if the type is relayed and the batch is not empty. |
| InfractionUnset.RelayGate | src/main/kotlin/net/fabricmc/bot/extensions/infractions/InfractionUnsetCommand.kt:94-114 | A whole invocation direct-messages someone if and only if the type is relayed, a member id is known, and an infraction matched. |
| InfractionUnset.NoMemberNoEffects | src/main/kotlin/net/fabricmc/bot/extensions/infractions/InfractionUnsetCommand.kt:153-156 | Without a member id, the only effect is the explanatory message: no query, cancellation, reversal or notice. |
| InfractionUnset.NoMatchNoEffects | src/main/kotlin/net/fabricmc/bot/extensions/infractions/InfractionUnsetCommand.kt:162-168 | With no match, the query is followed only by the "Unable to find a matching active infraction" reply. |
| InfractionUnset.PardonInOrder | src/main/kotlin/net/fabricmc/bot/extensions/infractions/InfractionUnsetCommand.kt:170-178 | After the query, every match gets a block, in query order. The k-th block starts with the k-th match's cancellation, followed by its reversal with the member's id and no expiry. |
| InfractionUnset.ReversalsExactlyMatches | src/main/kotlin/net/fabricmc/bot/extensions/infractions/InfractionUnsetCommand.kt:158-178 | Over the whole invocation, the reversals are exactly one per match, in query order, and so are the cancellations. |
| InfractionUnset.QueryOrderKept | src/main/kotlin/net/fabricmc/bot/extensions/infractions/InfractionUnsetCommand.kt:158-178 | When the store is two stretches, every effect for a match in the first comes before every effect for a match in the second. |
| InfractionUnset.NonMatchingUntouched | src/main/kotlin/net/fabricmc/bot/extensions/infractions/InfractionUnsetCommand.kt:158-160 | When stored ids are unique, no effect is about a stored infraction that is inactive, belongs to someone else, or is of another type. |
| InfractionUnset.SendToUser | src/main/kotlin/net/fabricmc/bot/extensions/infractions/InfractionUnsetCommand.kt:94-114 | The direct message is produced only for relayed types, with the capitalised action as its title and the private message with its reason as its description. |
| InfractionUnset.SendToChannel | src/main/kotlin/net/fabricmc/bot/extensions/infractions/InfractionUnsetCommand.kt:116-129 | The channel notice is "Infraction pardoned" with the public message and no reason. |
| InfractionUnset.SendToModLog | src/main/kotlin/net/fabricmc/bot/extensions/infractions/InfractionUnsetCommand.kt:131-147 | The mod-log notice is "Infraction Pardoned" with the mod-log description. |
| InfractionUnset.PardonOne | src/main/kotlin/net/fabricmc/bot/extensions/infractions/InfractionUnsetCommand.kt:171-177 | One pass of the loop is cancellation, reversal, direct message (if relayed), channel notice and mod-log notice, in that order. |
| InfractionUnset.PardonAllSnoc | src/main/kotlin/net/fabricmc/bot/extensions/infractions/InfractionUnsetCommand.kt:170 | Pardoning the first k+1 infractions is pardoning the first k and then the next one. |
| InfractionUnset.PardonAllAppend | src/main/kotlin/net/fabricmc/bot/extensions/infractions/InfractionUnsetCommand.kt:170-178 | Pardoning two lists one after the other gives the pardon of their concatenation. |
| InfractionUnset.PardonAllStep | src/main/kotlin/net/fabricmc/bot/extensions/infractions/InfractionUnsetCommand.kt:170-178 | After one more pass, the trace is the pardon of one more infraction of the list. |
| InfractionUnset.UndoInfraction | src/main/kotlin/net/fabricmc/bot/extensions/infractions/InfractionUnsetCommand.kt:149-179 | The loop's trace is exactly `UndoEvents`: explanation only, query then "no match", or query then the pardon of every match in order. |
| Text.ToLower | src/main/kotlin/net/fabricmc/bot/extensions/MappingsExtension.kt:97 | Lowercasing keeps the length and lowers each character. |
| Text.CapitalizeSameWord | src/main/kotlin/net/fabricmc/bot/extensions/infractions/InfractionUnsetCommand.kt:101 | The capitalised action differs from the action only in case, a lower-case initial becomes upper-case, and capitalising again changes nothing. |
| Decimal.NatRoundTrip | src/main/kotlin/net/fabricmc/bot/extensions/MappingsExtension.kt:316 | The decimal rendering of the result count parses back to the count. |
| Decimal.IntToStringInjective | src/main/kotlin/net/fabricmc/bot/extensions/infractions/InfractionUnsetCommand.kt:76 | Different integers have different decimal renderings. |

## Left out

- Discord I/O: replies, embeds, direct messages, the mod log and the paginator are not sent
  anywhere. They are replies, strings and trace events.
- Embed colours and timestamps: `Instant.now()` reads the clock, and the colour does not affect
  behaviour.
- Loading mappings and the version-check extension: the lookup result and the latest versions
  are inputs. `MappingsManager` is not part of this model.
- `requireBotChannel` and `requireGuildChannel`: these channel guards run before the modelled
  logic.
- `defaultCheck` and `topRoleHigherOrEqual`: these are library calls. Only the choice of the
  required role is modelled, by `InfractionNotices.RequiredRole`.
- `cancelJobForInfraction` and the reversal action: their internals, timers and concurrency are
  not modelled. Each is one `CancelJob` or `Reverse` event.
- `UUID.fromString` is not modelled: infraction ids are opaque strings.
- `getMemberId` is not part of this model. Its result is an input member id that may be absent,
  plus the explanatory message.
- The SQL of `getActiveInfractionsByUser` is not part of this model. It is modelled as keeping
  the active infractions of the member, in store order.
- `InfractionTypes` is not part of this model. A type is a record of its name, action text,
  relay flag and trainee flag, and NOTE is the type named `NOTE`.
- InfractionUnset.SendToUser: `getUser` may return no user, and then no message goes out. The
  model records the attempted direct message whenever the type is relayed.
- Case handling is ASCII only: `toLowerCase`, `capitalize` and `IGNORE_CASE` ignore Unicode and
  locale rules.
- `getName` and `getDescriptor` are taken to return a string. A `null` name, which Kotlin would
  render as `null`, is not modelled.
- The three mappings actions are one `MappingsCommands.Action`, with the command as a
  parameter. The handlers differ in three ways: the resolution function, the lookup they call
  (`getClassMappings`, `getFieldMappings` or `getMethodMappings`) and the noun in the "no
  matches" reply. The `lookup` input stands for whichever lookup the command calls.
- InfractionUnset.UndoInfraction: the model assumes every collaborator call returns normally.
  Nothing in `undoInfraction` catches an exception. In the source, `UUID.fromString` on an id
  that is not a UUID, or a failing reversal action, `getUser`, direct message, channel embed or
  mod-log call, ends the command. The infractions after that point are then not pardoned.
