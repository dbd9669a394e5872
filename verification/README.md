# ISAAC command logic in Dafny

ISAAC is a Discord bot. This project models the decision logic of three of its
commands and of the string helpers they share:

- **util** (`util.dfy`, module `Util`): ASCII case folding, `ArrayContains`, message
  links (`GetMsgURL`), and the recognisers for Discord IDs (`IsID`, `GetID`) and for bot,
  user and channel mentions (`IsBot`, `IsUser`, `IsChannel`). Each recogniser's regular
  expression is written out as a predicate over positions of the text. Each recogniser
  is proved equal to "some position of the text starts a word of the expression".
- **image-link pattern** (`url_pattern.dfy`, module `UrlPattern`): the JPEG command's
  `urlRE`. It is stated twice. First as a language: which spans of a text are words of
  the pattern. Then as the search Go's regexp package performs: leftmost start, greedy
  `s?` and `*`, the extension alternatives tried in order, and `FindAllString` resuming
  after each match. `MatchString` is proved to answer exactly whether the text matches.
  Every string `FindAll` returns is proved to be a whole word of the pattern.
- **role gatekeeper** (`gatekeeper.dfy`, module `Gatekeeper`): `!role`. It builds the
  table of opt-in roles (names starting with ':'), lists them, and gives or takes one.
  The guild's roles and the member's roles are inputs. The client calls the command
  makes (send a reply, add a role, remove a role) are returned as a sequence of effects.
- **help** (`help.dfy`, module `Help`): `Init` indexes the command registry into a
  handler table and embed fields, in Go's unspecified map order. `Handle` answers
  `!help` and `!help <name>`. The package-level table and field list are the fields of
  class `HelpIndex`.
- **JPEG link selection** (`jpeg.dfy`, module `Jpeg`): which image links `!jpeg` works on.
  It takes a link argument, the last message before the command, or a message by ID.
  The client's answers to the two message fetches are inputs.

`wrappers.dfy` holds the `Option` and `Result` types.

## Model

| member | source | states |
|---|---|---|
| Util.ToLower | util/util.go:33-35 | lower-casing keeps the length and lowers each ASCII upper-case letter, leaving every other character alone |
| Util.ToLowerHasNoUpper | util/util.go:33-35 | lower-cased text holds no upper-case letter |
| Util.ToLowerIdempotent | util/util.go:33-35 | lower-casing twice is the same as lower-casing once |
| Util.ArrayContains | util/util.go:31-42 | the scan returns true exactly when some element, lower-cased if case is ignored, equals the value; the value itself is never lower-cased |
| Util.ContainsExactIsMembership | util/util.go:31-42 | with case respected the test is plain sequence membership; the empty array contains nothing |
| Util.UpperValueNeverFound | util/util.go:33-37 | with case ignored, a value holding an upper-case letter is never found, because only the elements are lower-cased |
| Util.GetMsgURL | util/util.go:77-80 | the link starts with `https://discordapp.com/channels/` and has the length of base, three IDs and two separators |
| Util.MsgURLRoundTrip | util/util.go:77-80 | guild, channel and message IDs can be read back from the link when the first two hold no '/' |
| Util.FirstIdFrom | util/util.go:88 | finds the leftmost position at or after a start where eighteen digits begin, or reports that there is none |
| Util.GetID | util/util.go:96-99 | the result is empty exactly when the text holds no eighteen consecutive digits; otherwise it is the leftmost such run |
| Util.IsID | util/util.go:92-94 | true exactly when the text begins with eighteen ASCII digits; the rest of the text is not read |
| Util.IsIDThenGetID | util/util.go:83-99 | text that passes `IsID` yields its first eighteen characters as its ID |
| Util.IsIDIgnoresSuffix | util/util.go:83-94 | `IsID` is anchored only at the start: appending anything keeps the verdict and the ID |
| Util.MentionFrom | util/util.go:84-86 | the scan is true exactly when some position from the start on holds the opening, eighteen digits and '>' |
| Util.IsBot | util/util.go:101-104 | true exactly when the text contains `<@&`, eighteen digits and `>` |
| Util.IsChannel | util/util.go:111-114 | true exactly when the text contains `<#`, eighteen digits and `>` |
| Util.SkipBangs | util/util.go:85 | returns the end of the run of '!' that starts at the given position |
| Util.BangsAreTheRun | util/util.go:85 | since an ID starts with a digit, a user mention has exactly as many '!' as the run after `<@` |
| Util.NoUserMentionAt | util/util.go:85 | where reading all the '!' fails, no other number of '!' gives a user mention |
| Util.UserMentionFrom | util/util.go:85 | the greedy scan is true exactly when a user mention with some number of '!' starts at or after the given position |
| Util.IsUser | util/util.go:106-109 | true exactly when the text contains `<@`, any number of '!', eighteen digits and `>` |
| Util.MentionCarriesID | util/util.go:83-114 | any text a mention recogniser accepts yields an eighteen-character ID from `GetID` |
| UrlPattern.InLanguageMatches | command/jpeg.go:31 | a word of the pattern matches the pattern |
| UrlPattern.SpanIsWord | command/jpeg.go:31 | a matching span, cut out of its text, is a word of the pattern on its own |
| UrlPattern.SchemeEndSpec | command/jpeg.go:31 | the scheme is read as `https:` whole when present (greedy `s?`), else `http:`; a scheme is reported only where one starts, and every scheme that starts there is the one reported |
| UrlPattern.FirstAlternative | command/jpeg.go:31 | the end reported for an alternative lies between the position and the end of the text |
| UrlPattern.FirstAlternativeInOrder | command/jpeg.go:31 | the choice `(?:…)` is ordered: the alternative taken is the first in the list that occurs at the position, and nothing is taken only when none occurs |
| UrlPattern.FirstAlternativeSpec | command/jpeg.go:31 | an alternative is reported only where it occurs; nothing is reported only when no alternative occurs at the position |
| UrlPattern.ExtEnd | command/jpeg.go:31 | an extension, when found, is not empty and ends within the text |
| UrlPattern.ExtEndSpec | command/jpeg.go:31 | an extension is found at the position exactly when one of the six alternatives `jpg`, `jpeg`, `png`, `JPG`, `JPEG`, `PNG` starts there |
| UrlPattern.RunEnd | command/jpeg.go:31 | the greedy `*`: the end of the run of path characters |
| UrlPattern.LastDotExt | command/jpeg.go:31 | the backtracking of greedy `*`: the last '.' followed by an extension before the run's end, or none |
| UrlPattern.MatchEndAt | command/jpeg.go:31 | a match reported at a position ends after it and within the text |
| UrlPattern.MatchEndSound | command/jpeg.go:31 | every reported match is a word of the pattern |
| UrlPattern.MatchEndComplete | command/jpeg.go:31 | wherever a word of the pattern starts, the search reports a match |
| UrlPattern.FirstMatchFrom | command/jpeg.go:31 | the search reports the leftmost position with a match, and no earlier position has one |
| UrlPattern.NoMatchAnywhere | command/jpeg.go:31 | when the search finds nothing, no span of the text is a word of the pattern |
| UrlPattern.MatchString | command/jpeg.go:88 | `urlRE.MatchString` is true exactly when some span of the text is a word of the pattern |
| UrlPattern.FindAllFrom | command/jpeg.go:98 | every result is a word of the pattern; there is none exactly when no match starts at or after the position |
| UrlPattern.FindAllLeftmostFirst | command/jpeg.go:98 | the first string `FindAllString` returns is the match at the leftmost position where a word of the pattern starts, no word starts earlier, and the search resumes where that match ends |
| UrlPattern.FindAll | command/jpeg.go:98 | every string found is a whole word of the pattern; the result is empty exactly when the text does not match |
| Jpeg.GetMessage | command/jpeg.go:110-137 | no argument: the last fetched message, or the fetch error. An ID argument: the message fetched by ID, or "unable to get message with ID '…'". Anything else: "'…' doesn't look like a message ID or URL" |
| Jpeg.MatchingProxyURLs | command/jpeg.go:100-104 | keeps only attachment links that match the pattern, never more than there are attachments |
| Jpeg.MatchingProxyURLsMembers | command/jpeg.go:100-104 | a link is selected exactly when some attachment carries it and it matches the pattern |
| Jpeg.MessageURLs | command/jpeg.go:97-105 | every link taken from a message matches the pattern |
| Jpeg.CollectProxyURLs | command/jpeg.go:99-105 | the loop collects exactly the matching attachment links, in attachment order |
| Jpeg.GetURLs | command/jpeg.go:85-108 | a matching first argument is returned whole and nothing is fetched. Otherwise a message error is passed on, or the message supplies the links: content matches when it has no first attachment, else matching attachment links. Every link returned matches |
| Jpeg.Handle | command/jpeg.go:41-48 | replies exactly when no link argument was given and no message could be had, with "Unable to get URLs for JPEGing: \`…\`"; a link argument is processed alone; otherwise the chosen message's links are processed, and every link to process matches |
| Gatekeeper.TableKeys | command/gatekeeper.go:41-48 | a name is requestable exactly when some opt-in role's name, without ':' and lower-cased, is that name |
| Gatekeeper.TableValue | command/gatekeeper.go:43-47 | a requestable name maps to the ID of the last opt-in role in guild order with that name |
| Gatekeeper.TableNonEmpty | command/gatekeeper.go:41-52 | the table has an entry exactly when the guild has an opt-in role |
| Gatekeeper.ListedNamesAreKeys | command/gatekeeper.go:41-48 | a name is requestable exactly when it is a listed name lower-cased: the listing and the table agree |
| Gatekeeper.BuildRequestable | command/gatekeeper.go:41-48 | the first loop builds the table and the shown names, which keep their case and guild order |
| Gatekeeper.ListingLinesPrefix | command/gatekeeper.go:56-58 | the lines for the first names are where the lines for all names begin |
| Gatekeeper.ListingShowsEach | command/gatekeeper.go:53-60 | each shown name has its own line ``"\n- `name`"`` in the listing, after the lines of the names before it |
| Gatekeeper.BuildListing | command/gatekeeper.go:53-60 | the second loop writes "Available roles are: " and then one line per shown name, in order |
| Gatekeeper.ParseVerb | command/gatekeeper.go:69-78 | after ASCII lower-casing, `give`, `g` or `gib` is give, `take`, `t` or `tak` is take, and anything else is no verb |
| Gatekeeper.ParseVerbIgnoresCase | command/gatekeeper.go:70-78 | the verb is recognised regardless of case |
| Gatekeeper.Handle | command/gatekeeper.go:32-134 | If the role fetch fails, nothing happens. With no arguments: the listing, or the no-roles notice. A bad verb or a missing name: the usage text. An unknown name: "Unable to find role \`…\`". Otherwise the member holds the role after give and not after take; a change is made only when needed; at most one change, always before the single reply |
| Gatekeeper.GiveOrTake | command/gatekeeper.go:102-133 | after give the member holds the role and after take they do not, all other roles unchanged. Already held on give: only "You appear to already have that role". Not held on give: add the role, then "You have been given role". Not held on take: only "You don't have that role...". Held on take: remove the role, then "Taking role … away" |
| Gatekeeper.OccursThrice | command/gatekeeper.go:140-146 | three words placed between pieces of text all occur in the result |
| Gatekeeper.HelpText | command/gatekeeper.go:139-147 | the help reply shows the command's listing, give and take usages |
| Help.FieldsStep | command/help.go:29-46 | visiting one more command adds its field when it has help text and nothing otherwise; fields stay distinct and their count is that of the commands with help text |
| Help.HandlersStep | command/help.go:29-36 | visiting one more command adds a handler under its lower-cased name when it has help text, and leaves the table alone otherwise |
| Help.VisitNext | command/help.go:28-46 | visiting a key next changes the table and the fields only by that command's own entry |
| Help.VisitNew | command/help.go:28 | visiting a key not yet visited keeps the order free of repeats and adds that key to the visited ones |
| Help.VisitOneMore | command/help.go:28 | the visits before the last one were free of repeats too, and the last key was new |
| Help.AnyOrderFields | command/help.go:28-46 | in any visiting order there is one field per visited command with help text, no two alike |
| Help.AnyOrderHandlers | command/help.go:28-36 | in any visiting order, a name has a handler exactly when a visited command with help text lowers to it, and its handler is such a command's |
| Help.CompleteOrderIndexes | command/help.go:28-46 | once every command is visited, exactly the commands with help text are indexed |
| Help.MapOrder | command/help.go:28 | `range` over the registry visits every key exactly once, in an order the program does not choose |
| Help.HelpIndex.constructor | command/help.go:19-22 | the table and the field list start empty |
| Help.HelpIndex.Init | command/help.go:26-49 | for the order `range` visits the keys in (each key once, all keys visited), the table and the fields are those that visiting order gives. Each command with help text adds its handler under its lower-cased name and one field `prefix + name`; the count returned is the number of commands with help text |
| Help.HelpIndex.Handle | command/help.go:52-74 | no argument: the embed with every field. Otherwise the lower-cased argument runs its handler, or the reply is "Unable to find help handler for command: …" |
| Help.HelpAfterInit | command/help.go:26-74 | after `Init`, `!help` lists one field per command with help text. `!help name` runs the help of a command with help text and that lower-cased name, or reports none. A command without help text gets no handler |

## Left out

- The dispatcher (argument parsing, the command registry, middleware, permission checks, the rate limiter) is not part of this model. Its `Commands` map enters `Help.HelpIndex.Init` as a map of `CommandSettings` records, and its parsed arguments enter every command as a sequence of strings.
- bot.go (configuration, connection, signal handling) is process wiring and is not modelled.
- `util.InitFile` (filesystem), `ChannelSend`/`ChannelSendf` (network sends) and `IsURL` (delegates to Go's URL parser) are not modelled.
- The JPEG image work (command/jpeg.go:50-82) is not modelled: download, decode, saturation and blur with floating-point parameters, JPEG encoding and the file upload. `Jpeg.Handle` stops at the list of links to process.
- Logging, the typing indicator, the embed's title, colour, description and the fields' `Inline` flag are side effects or presentation with nothing to state.
- The `Settings` methods of the three commands only copy the command name and help text into a record; that record is `Help.CommandSettings`.
- The fixed `HandleHelp` replies of the help and JPEG commands are the constants `Help.OwnHelpText` and `Jpeg.HelpReply`.
- The gatekeeper's `backendError` constant is never used by the source and is not modelled.
- Util.ToLower: models `strings.ToLower` on ASCII letters only; Unicode case mapping is not modelled.
- Gatekeeper.Handle: the member's roles are an input. A failed member fetch, after which the source dereferences a nil member (command/gatekeeper.go:88-91, 103), is not modelled. Failures of the role add and remove calls are ignored by the source and are not modelled either. The member's mention text is an input.
- Jpeg.GetMessage: requires a non-empty message list when there is no argument, because the source indexes the last element without a check (command/jpeg.go:119).
- Jpeg.GetURLs: requires every attachment slot of the chosen message to be filled when the first is; the requirement applies only to the message the argument selects (the last fetched one with no argument, the one fetched by ID otherwise). The source reads each slot's link without a nil check (command/jpeg.go:100-101).
- Help.HelpIndex.Init: promises which fields and handlers there are, not the order of the fields, because Go's map iteration order is unspecified. The logged count is returned as `loaded`.
- Help.HelpIndex.Handle: running a help handler is returned as `RunHelp` with the registry key whose handler runs; what that handler sends belongs to the other command.
