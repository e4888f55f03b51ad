# AuthLab, verified

A Dafny model of the algorithms and state machines inside AuthLab, a harness for identity and access
tests: the SCIM filter language, the sign-in throttle, the SCIM user and group store with the sessions
it ends, identity provider connections and their secrets, role mapping, the local administrator
account, schema reconciliation and list paging.

| files | what they model |
|---|---|
| Text, Json | the Python string operations and decoded JSON values the rest is written with |
| FilterLexer, FilterParser, FilterPrinter, FilterSql | filter text to tokens to tree to SQL condition, with LIKE and three-valued logic |
| Throttle | the sliding window over failed sign-ins, in real-valued time |
| ScimPatch, ScimStore, ScimService, ScimQuery | PATCH on users and groups; the store as a function of each request; the handlers that update it in place; filtered, paged listing |
| IdpSettings, Connections, ConnectionLaws | settings models and validators; saving, exporting and importing connections; what that promises |
| RoleMap | claims and SCIM groups to a role, with the trace |
| LocalAccounts | restarts, account administration and password changes |
| SchemaSync | adding missing columns to an existing database |
| Pagination | startIndex and count |

Code that works by updating state is a class or a method with loops, proved against a function; the laws
are lemmas about that function. Code made of expressions is functions. Automatic induction is off in every
lemma, and the longer ones hide the definitions they do not use. Small tables and constants that other
laws are stated through are spelled out beside them, in lemmas with no row below: what is whitespace, a
line break, a letter, a word character or false (`Text.SpacesAre`, `IdpSettings.LineBreaksAre`,
`ScimPatch.LettersAre`, `FilterLexer.WordCharsAre`, `Json.FalsyAre`), the keywords, the operators and LIKE's
underscore (`FilterLexer.WordTokensAre`, `FilterSql.OperatorsSplit`, `FilterSql.LikeAnyChar`), the columns,
settings, switches and validators there are (`ScimQuery.FilterSeesRow`, `IdpSettings.Protocols`,
`IdpSettings.OidcTexts`, `IdpSettings.SamlTexts`, `IdpSettings.OidcSwitches`, `IdpSettings.SamlSwitches`,
`IdpSettings.SubmittedSetting`), and short case splits (`RoleMap.SourcesAre`, `ConnectionLaws.TargetExactly`,
`LocalAccounts.InferredOrigin`, `ScimPatch.OtherGroupOperations`, `ScimStore.GroupDeleted`).

## Where the code differs from its description

- Section 3.4.2.2 of RFC 7644 compares text under one notion of case per attribute. The code matches every
  attribute without case and orders every attribute with it: the user "B" equals "b" and is less than it
  (`FilterSql.OrderMindsCase`), and externalId, case-exact in section 3.1 of RFC 7643, is not so here
  (`FilterSql.ExactIgnoresCase`). `FilterSql.MatchingExactly` and `FilterSql.OrderingExactly` say for which
  stored texts the operators mean what the RFC says, `FilterSql.GeIsGtOrEqExactly` when ge is gt or eq.
- Python lower-cases the value and the database the column. SQLite's lower() is ASCII only, so a user with
  an accented capital is not found by their own name (`FilterSql.AccentedNotFound`); a patched text is found
  exactly when the two agree on it (`ScimQuery.PatchedUserIsFound`).
- A negated comparison on a NULL column is neither true nor false in SQL, so `not (externalId eq "x")` does
  not list a user without an externalId (`ScimQuery.NegationMissesNull`). A filter fits a row when its
  comparisons agree with the RFC there and no negated one reads a NULL; rows it fits are selected exactly
  when they are meant (`FilterSql.SelectedIsMeant`), and for a comparison or its negation only those
  (`FilterSql.LiteralSelectedExactly`, `ScimQuery.LiteralListingExactly`).
- The throttle names five attempts in 300 seconds. `int(...)` truncates the last second of a lockout to
  zero, and the whole list is then cleared, fresh failures included: nine failures fit in half a second
  (`Throttle.NineReached`), and never ten in 299 seconds (`Throttle.FailuresBounded`). Five is right
  wherever no such clear falls (`Throttle.FiveWithoutClear`); around a clear a sixth gets in exactly when
  the newest forgotten failure is at most 299 seconds old (`Throttle.SixAroundClearExactly`).
- Deprovisioning looks sessions up by the user's identifiers as updated, trimmed and lower-cased in Python,
  against the lower-cased session in the database. A user who is renamed and deactivated in one request
  (`ScimStore.RenamedUserKeepsSession`), whose name is stored with padding (`ScimStore.PaddedUserKeepsSession`,
  `ScimStore.PaddedUserStaysSignedIn`) or has a capital only Python lower-cases
  (`ScimStore.AccentedUserKeepsSession`) keeps their session. `ScimStore.DeprovisioningCoversExactly` says for
  which users and requests all sessions end, `ScimStore.LockedOutExactly` for which sessions.
- An issuer or certificate is normalised in one pass, and again on every load, so the stored value can
  still move. `IdpSettings.IssuerOnePassExactly` and `IdpSettings.CertOnePassExactly` say which submitted
  texts settle at once. A certificate settles in two passes (`IdpSettings.CertTwoPassesSuffice`); for
  issuers no number is enough (`IdpSettings.IssuerPassesUnbounded`).
- A submitted secret that begins with the encryption prefix is stored as typed. If the rest is not all
  ASCII, decrypting it raises and the connection no longer loads (`ConnectionLaws.UnencodableSecretSticks`,
  `ConnectionLaws.SavedLoadsExactly`); if it is ASCII but no token of the key, it reads back as blank
  (`ConnectionLaws.PrefixedSecretLost`).
- Starting with a configured password does not re-enable a disabled account whose password already
  matches (`LocalAccounts.EnabledExactly`), and takes a person's account over even when the password is
  the one they chose (`LocalAccounts.ConfiguredStartTakesOver`). `LocalAccounts.ChosenPasswordKeptExactly`
  says which runs keep a chosen password.
- Removing `members` from a group without naming anyone changes nothing (`ScimPatch.BareRemoveIgnored`,
  and `ScimPatch.RemoveEmptiesExactly` for every such operation); section 3.5.2.2 of RFC 7644 would
  remove them all.
- Patching `emails` with the list a read shows stores the text of an empty list when there is no address
  (`ScimPatch.EmailsAsRead`).

## Model

| member | source | states |
|---|---|---|
| `FilterLexer.Tokenize` | app/scim/filters.py:59-98 | the loop gives the tokens of the longest-match lexemes, or the error met first from the left, with its position |
| `FilterLexer.LongestMatch` | app/scim/filters.py:36-46 | the match at any point is the longest text any alternative accepts there, and there is one whenever an alternative accepts anything |
| `FilterLexer.LexerExact` | app/scim/filters.py:59-98 | lexing succeeds with a list of lexemes exactly when they are separated and concatenate, spaces included, to the whole input |
| `FilterLexer.BodyRunIs` | app/scim/filters.py:41 | a string literal ends at its first unescaped quote, whatever follows |
| `FilterLexer.UnquoteIsOnePass` | app/scim/filters.py:80-82 | on every literal the tokeniser accepts, the two whole-string replaces equal reading escapes once from left to right |
| `FilterLexer.UnquoteEscape` | app/scim/filters.py:80-82 | quoting any string and reading the literal back is the identity |
| `FilterParser.Parser.Next` | app/scim/filters.py:136-141 | returns the token under the cursor and moves past it; at the end it fails and stays |
| `FilterParser.Parser.Parse` | app/scim/filters.py:143-149 | accepts only when nothing is left over |
| `FilterParser.Parser.ParseOr` | app/scim/filters.py:151-156 | the loop computes the left-associated disjunction and leaves the cursor after it |
| `FilterParser.Parser.ParseAnd` | app/scim/filters.py:158-163 | the loop computes the left-associated conjunction and leaves the cursor after it |
| `FilterParser.Parser.ParseUnary` | app/scim/filters.py:165-181 | negation needs a group, a group needs its closing parenthesis, each failure with its own error |
| `FilterParser.Parser.ParseComparison` | app/scim/filters.py:183-213 | attribute, operator and value are checked in that order, each failure with its own error |
| `FilterParser.ParserDecidesGrammar` | app/scim/filters.py:143-208 | parsing returns a tree exactly when the declarative grammar derives that tree from the whole token list |
| `FilterParser.GrammarUnambiguous` | app/scim/filters.py:143-208 | no token list has two derivations |
| `FilterPrinter.BuildFilter` | app/scim/filters.py:247-255 | strip, tokenise, parse; blank text is no filter |
| `FilterPrinter.BuildsExactly` | app/scim/filters.py:247-255 | a filter builds to a tree exactly when its text, outer whitespace aside, is laid out from tokens that derive the tree, and to no filter exactly when it is blank; anything else is an error |
| `FilterPrinter.PrintedIsShortest` | app/scim/filters.py:143-208 | the printed form of a tree has no more tokens than any text that parses to it, so no parenthesis in it is spare |
| `FilterPrinter.LayoutRoundTrip` | app/scim/filters.py:59-255 | any spacing, keyword case and quoting that carries the printed tokens builds exactly the tree |
| `FilterPrinter.PrintRoundTrip` | app/scim/filters.py:59-255 | printing any supported tree with minimal parentheses and building it again returns exactly that tree |
| `FilterPrinter.BuiltIsSupported` | app/scim/filters.py:183-213 | every tree the builder returns has known attributes and operators its columns accept |
| `FilterPrinter.DeployedRoundTrip` | app/scim/router.py:149-169 | the round trip holds for the user and the group attribute maps |
| `FilterSql.ThreeReplacesAreOnePass` | app/scim/filters.py:220-222 | the three successive replaces put one backslash before each special character and nothing else |
| `FilterSql.LikeExact` | app/scim/filters.py:220-235 | the co, sw and ew patterns match a text under SQL LIKE exactly when it contains, starts with or ends with the lower-cased value |
| `FilterSql.CompiledMeaning` | app/scim/filters.py:151-244 | where the compared columns are not NULL and the comparisons agree with the RFC, the clause is never unknown and equals the meaning of section 3.4.2.2 of RFC 7644, with one notion of case per attribute |
| `FilterSql.CompiledReading` | app/scim/filters.py:151-244 | whenever the compared columns are not NULL the clause is never unknown and equals the code's own two-valued reading; pr is definite even on NULL |
| `FilterSql.EvalIsCertain` | app/scim/filters.py:151-244 | on every row the clause is true exactly where the filter is certainly true, and false exactly where it is certainly false |
| `FilterSql.SelectedIsRead` | app/scim/router.py:347-363 | every selected row satisfies that reading, and all that do are selected when no comparison under an odd number of nots reads a NULL |
| `FilterSql.SelectedIsMeant` | app/scim/router.py:347-363 | where the comparisons agree with the RFC, every selected row is meant, and every meant row is selected when no comparison under an odd number of nots reads a NULL |
| `FilterSql.LiteralSelectedExactly` | app/scim/filters.py:165-244 | a comparison or its negation selects what it means exactly on the rows it fits: not negated on a NULL, and agreeing with the RFC |
| `FilterSql.MatchingExactly` | app/scim/filters.py:220-235 | a stored text is matched by eq, ne, co, sw and ew as the RFC has it, whatever the value, exactly when Python and the database lower-case it alike and, under a case-exact attribute, no character of it has another case |
| `FilterSql.OrderingExactly` | app/scim/filters.py:236-243 | a stored text is ordered by gt, ge, lt and le as the RFC has it, whatever the value, exactly when the attribute is case-exact or lower-casing keeps the order of its characters |
| `FilterSql.EqAgreesExactly` | app/scim/filters.py:224-227 | exactly the pairs of stored text and value on which eq is the RFC's eq |
| `FilterSql.GeIsGtOrEqExactly` | app/scim/filters.py:224-239 | exactly the pairs on which ge is gt or eq |
| `FilterSql.OrderMindsCase` | app/scim/filters.py:224-241 | a row that equals the value, is less than it and is not greater or equal |
| `FilterSql.ExactIgnoresCase` | app/scim/filters.py:224-227 | a case-exact attribute, id or externalId, found by a value in another case |
| `FilterSql.AccentedNotFound` | app/scim/filters.py:222-227 | a row not found by its own text under an ASCII-only database lower() |
| `FilterSql.DefiniteAnswersSurviveFilling` | app/scim/filters.py:151-244 | a definite answer on a row with NULLs is the answer for every value the NULLs could have, unless pr or a boolean test read one |
| `FilterSql.PresenceNeedsTheGuard` | app/scim/filters.py:199-203 | that exception is real: pr on a NULL changes its answer when the NULL is filled |
| `FilterSql.PrintedFilterSelectsMeaning` | app/scim/router.py:347-363 | writing a filter out and running its clause keeps, in order, exactly the rows on which it is certainly true; they are the rows it means when it fits them all |
| `Throttle.Limiter.Check` | app/ratelimit.py:25-41 | prunes, denies with a retry time, or clears, for its key; other keys are untouched |
| `Throttle.Limiter.RecordFailure` | app/ratelimit.py:44-46 | appends the time to its key's list only |
| `Throttle.Limiter.Reset` | app/ratelimit.py:49-51 | forgets its key's list only |
| `Throttle.Limiter.LocalLogin` | app/auth/router.py:173-218 | check, then record or reset: one sign-in is one step of the run model |
| `Throttle.DeniedExactly` | app/ratelimit.py:31-41 | a check denies exactly while five failures are kept and the oldest is at most 299 seconds old, and a denial changes nothing |
| `Throttle.CheckExactly` | app/ratelimit.py:25-41 | a check forgets exactly the failures at least 300 seconds old, allows with fewer than five left, and with five denies for the whole seconds the oldest still has to go, or allows and forgets them all when that is none |
| `Throttle.HonestRetry` | app/ratelimit.py:31-41 | after "retry in r", whatever denied checks come between, a check up to r - 1 seconds later is denied and one from r seconds on is allowed |
| `Throttle.RunKeeps` | app/ratelimit.py:25-46 | over every run the list is the sorted tail of all failures, failures leave it only by age or a clear, and ten never fit in 299 seconds |
| `Throttle.FailuresBounded` | app/ratelimit.py:25-46 | any closed 299-second interval of any run holds at most nine failures and one clear |
| `Throttle.FiveWithoutClear` | app/ratelimit.py:17-46 | an interval without a clear holds at most the five failures the limit names |
| `Throttle.SixAroundClearExactly` | app/ratelimit.py:31-41 | some way of going on after a clear puts six failures into an interval of 299 seconds around it exactly when the newest forgotten failure is at most 299 seconds old |
| `Throttle.NineReached` | app/ratelimit.py:35-40 | a run that records nine failures within 0.3 seconds |
| `ScimPatch.ApplyUserOperation` | app/scim/router.py:558-597 | one PATCH operation does what its shape says, or is refused as unsupported |
| `ScimPatch.SetFieldsLoop` | app/scim/router.py:592-597 | a path-less value is applied attribute by attribute in order |
| `ScimPatch.ValueFilterDropped` | app/scim/router.py:513-539 | a multi-valued path with any inner filter means the bare attribute |
| `ScimPatch.SubAttributeKept` | app/scim/router.py:513-539 | one with a sub-attribute after the filter means that sub-attribute of the bare attribute |
| `ScimPatch.DropExactly` | app/scim/router.py:513-525 | whatever else follows the filter leaves the path as it was |
| `ScimPatch.PaddedPath` | app/scim/router.py:528-539 | whitespace around a path does not matter |
| `ScimPatch.DottedPathsMean` | app/scim/router.py:513-525 | the dotted paths of name and emails reach the display, given and family name and the address |
| `ScimPatch.UrnPrefixDropped` | app/scim/router.py:535-539 | a path under a schema URN means the attribute the URN ends in |
| `ScimPatch.PatchIsLeftFold` | app/scim/router.py:478-479 | applying ops1 + ops2 is applying ops1 and then ops2, errors included |
| `ScimPatch.PatchFailsExactly` | app/scim/router.py:578-583 | a patch fails exactly when some operation, anywhere in it, is unsupported |
| `ScimPatch.ShapesAgree` | app/scim/router.py:585-597 | an explicit path and a path-less object with that key have the same effect |
| `ScimPatch.SpelledBooleans` | app/scim/schemas.py:127-146 | a boolean spelled as a string in any case and padding is that boolean, a number is whether it is not zero, a wrapper is what it wraps, and anything else leaves the default |
| `ScimPatch.SetReadsBack` | app/scim/router.py:542-555 | a text or boolean set at a path, bare or in any object or list wrapper, is what that field then holds, and no other field changes |
| `ScimPatch.RemoveBlanks` | app/scim/router.py:585-590 | a remove at a path blanks the field there, or deactivates, and no other field changes |
| `ScimPatch.LastValueWins` | app/scim/router.py:592-597 | a path-less object leaves each text field at the last text sent for it, bare or in any wrapper, and every field it does not mention alone |
| `ScimPatch.IgnoredOperations` | app/scim/router.py:585-597 | an unknown path, a remove without a path and a path-less value that is no object change nothing |
| `ScimPatch.EmailsAsRead` | app/scim/router.py:542-555 | patching the emails list as it was read keeps the user exactly when there is an address |
| `ScimPatch.PatchActive` | app/scim/router.py:464-482 | whether the user ends up active can be read off the operations' shapes alone |
| `ScimPatch.GroupMembersExist` | app/scim/router.py:765-795 | patching a group of stored users never adds anyone who is not stored |
| `ScimPatch.MembersOperations` | app/scim/router.py:765-795 | for a list of texts or objects with an id, one such object or one text where the code takes it, add is union with the stored users named, replace is assignment and remove is difference, and nothing else of the group changes |
| `ScimPatch.RenameOperations` | app/scim/router.py:776-788 | a name sent by path or in a path-less object becomes the name of the group, a blank one is ignored, and the members stay |
| `ScimPatch.RemoveByPathFilter` | app/scim/router.py:789-795 | a remove that names its member in the path filter removes exactly that member |
| `ScimPatch.RemoveEmptiesExactly` | app/scim/router.py:789-795 | a members remove empties the group exactly when it names every member, and changes nothing when it names nobody |
| `ScimPatch.BareRemoveIgnored` | app/scim/router.py:789-795 | a members remove without a value or a filter, in any spelling, changes nothing |
| `ScimService.Store.RevokeSessionsForUser` | app/security.py:199-242 | the loop marks exactly the live sessions under the identifiers and returns their number |
| `ScimService.Store.OpenSession` | app/security.py:107-163 | adds a live session under a new id |
| `ScimService.Store.CloseSession` | app/security.py:192-196 | revokes a live session once |
| `ScimService.Store.SessionFor` | app/security.py:166-189 | returns the session exactly when it exists, is not revoked and has not expired |
| `ScimService.Store.PostUser` | app/scim/router.py:390-431 | creates the user or fails with its error, against the request function |
| `ScimService.Store.PutUser` | app/scim/router.py:435-460 | replaces the user, ending sessions on deactivation |
| `ScimService.Store.PatchUserRow` | app/scim/router.py:464-486 | the loop over operations commits their fold or rolls everything back |
| `ScimService.Store.RemoveUser` | app/scim/router.py:490-505 | deletes the user, their memberships and their live sessions |
| `ScimService.Store.ResolveMembers` | app/scim/router.py:833-838 | the stored users among the ids, once each, in any order |
| `ScimService.Store.ApplyGroupOperation` | app/scim/router.py:765-795 | the list operation keeps the list duplicate-free and is union with existing users, assignment, or difference on the member set |
| `ScimService.Store.PostGroup` | app/scim/router.py:695-728 | creates the group with its stored members or fails with its error |
| `ScimService.Store.PutGroup` | app/scim/router.py:732-750 | replaces the group and its members |
| `ScimService.Store.PatchGroupRow` | app/scim/router.py:754-801 | a patch of any length equals the fold of the set operations |
| `ScimService.Store.RemoveGroup` | app/scim/router.py:805-818 | deletes the group and no user |
| `ScimStore.RunKeepsConsistent` | app/scim/router.py:390-838 | over every run of requests members are stored users and exact names stay unique |
| `ScimStore.FailedRequestChangesNothing` | app/scim/router.py:390-838 | a request that fails, whatever its error, leaves the whole store as it was |
| `ScimStore.DeleteDeprovisions` | app/scim/router.py:490-505 | a DELETE ends exactly the live sessions under the user's identifiers, counts them, leaves all other sessions and users, and takes the user and nobody else out of every group |
| `ScimStore.PatchDeprovisions` | app/scim/router.py:464-486 | a PATCH ends sessions exactly when its operations take active from true to false, those under the updated identifiers and no others |
| `ScimStore.PutDeprovisions` | app/scim/router.py:435-460 | the same for a PUT |
| `ScimStore.PatchIsAtomic` | app/scim/router.py:464-486 | an unsupported operation anywhere leaves the store unchanged |
| `ScimStore.SessionEndsExactly` | app/security.py:219-242 | after an accepted DELETE, or PUT or PATCH that deactivates, a session is revoked exactly when it was before, or its subject or email, lower-cased by the database, is among the identifiers trimmed and lower-cased by Python |
| `ScimStore.WantedExactly` | app/security.py:219-221 | those identifiers are the non-blank user name, address and externalId, each trimmed and lower-cased |
| `ScimStore.BlankIdentifiersRevokeNothing` | app/security.py:219-221 | blank identifiers never act as a wildcard |
| `ScimStore.RevokedForGood` | app/security.py:166-242 | no later run of requests un-revokes a session or lets it be read |
| `ScimStore.SignInReadsExactly` | app/security.py:107-189 | after a sign-in, whatever requests follow, the session reads back with its subject and email exactly until it expires or one of the requests ends it, and never after |
| `ScimStore.ExpiredNeverRead` | app/security.py:186 | no session is read after it expires, revoked or not |
| `ScimStore.SignInAndOut` | app/security.py:107-196 | a sign-in adds its session and touches nothing else; a sign-out ends its session and no other |
| `ScimStore.DeprovisioningCoversExactly` | app/security.py:219-233 | an accepted DELETE, or PUT or PATCH that deactivates, ends every session recorded under a stored identifier of the user, whatever sessions there are, exactly when the database's lower() takes each of these to one that is looked for |
| `ScimStore.KeptIdentifiersCovered` | app/security.py:219-233 | identifiers that are kept, unpadded and lower-cased alike on both sides are covered |
| `ScimStore.LockedOutExactly` | app/security.py:166-242 | after such a request no run ever reads a given session again exactly when it was revoked before, or its lower-cased subject or email is looked for |
| `ScimStore.DeprovisionedUserLockedOut` | app/security.py:166-242 | where the stored identifiers are covered no run ever reads any session of the user again |
| `ScimStore.RenamedUserKeepsSession` | app/scim/router.py:435-460 | a PUT that renames and deactivates a user after which their session is still read |
| `ScimStore.PaddedUserKeepsSession` | app/scim/router.py:490-505 | a user stored with a padded name whose session is still read after a DELETE |
| `ScimStore.PaddedUserStaysSignedIn` | app/scim/router.py:435-460 | the same after a PUT that only deactivates |
| `ScimStore.AccentedUserKeepsSession` | app/scim/router.py:490-505 | a user with a capital only Python lower-cases whose session is still read after a DELETE |
| `ScimStore.PutWhatWasRead` | app/scim/router.py:435-460 | putting back a user as read is accepted and changes nothing in the store, sessions included |
| `ScimStore.PostWhatWasRead` | app/scim/router.py:390-431 | posting a user as read stores that very user exactly when it has a name no stored user has, in any case, a free id and an e-mail address |
| `ScimStore.EmailWins` | app/scim/router.py:627-637 | the first primary address wins, else the first address; entries without one are skipped |
| `ScimStore.PostStores` | app/scim/router.py:411-431 | what an accepted POST stores: display name before formatted name, that address or else the user name, the rest as sent |
| `ScimStore.PutStores` | app/scim/router.py:443-460 | what an accepted PUT stores: the same, except that a user name, externalId or address it does not give stays |
| `ScimStore.PostRefusedExactly` | app/scim/router.py:397-428 | exactly when a POST is refused: no name, one user with the name in another case, several, or a clash in the database, each with its own error |
| `ScimStore.PutGroupWhatWasRead` | app/scim/router.py:743-747 | putting back a group, members in any order, changes nothing |
| `ScimStore.GroupPostStores` | app/scim/router.py:695-728 | what an accepted POST of a group stores; its members are the stored users listed |
| `ScimStore.GroupPostRefusedExactly` | app/scim/router.py:695-728 | exactly when it is refused, and how |
| `ScimStore.GroupPutStores` | app/scim/router.py:732-750 | what a PUT of a group stores, and that it is refused exactly when the group is unknown or another has the name |
| `ScimStore.MembersPatched` | app/scim/router.py:754-795 | one members operation as sent, in any case of operation and path: add keeps the old members and adds the stored users named, replace leaves exactly those, remove takes exactly those named away |
| `ScimStore.GroupRenamed` | app/scim/router.py:754-801 | a rename by path or path-less displayName keeps the members and stores the text sent, unless another group has that name |
| `ScimQuery.FilterSeesAttribute` | app/scim/router.py:149-161 | a filter compares at a path the field that PATCH sets at that path |
| `ScimQuery.ActiveSelectedExactly` | app/scim/filters.py:212-219 | eq on active selects exactly the users whose flag is the boolean the value spells, true for "true" or "1" in any case and padding and false for every other text; ne selects the others |
| `ScimQuery.ActiveListing` | app/scim/router.py:336-372 | the reply to such a filter is the page of exactly those users |
| `ScimQuery.UnfilteredListing` | app/scim/router.py:336-372 | a blank filter lists every user; without paging parameters the first 200 names in order |
| `ScimQuery.BadFilterRefused` | app/scim/router.py:347-356 | a filter that does not build is answered with its error, never with a listing |
| `ScimQuery.ListingIsCertain` | app/scim/router.py:336-372 | listing by a printed filter returns the page of exactly the users on which it is certainly true, NULLs or not |
| `ScimQuery.ListingIsMeaning` | app/scim/router.py:336-372 | when the filter fits every stored user, that is the page of exactly the users it means |
| `ScimQuery.LiteralListingExactly` | app/scim/router.py:336-372 | listing by a comparison or its negation shows the users it means exactly when it fits every stored user |
| `ScimQuery.NegationMissesNull` | app/scim/router.py:336-372 | a user without an externalId is meant by not (externalId eq v) and on no page of its listing |
| `ScimQuery.ListingTilesMeaning` | app/scim/router.py:336-372 | stepping startIndex by itemsPerPage through the replies shows each user on which the filter is certainly true once, in order, and no other; those it means when it fits them all |
| `ScimQuery.PatchedUserIsFound` | app/scim/router.py:464-486 | a user whose text attribute was set by PATCH is meant by an eq filter on that text, and some reply to that filter shows them exactly when Python and the database lower-case the text alike |
| `IdpSettings.PastedUrlIsIssuer` | app/auth/schemas.py:88-96 | an issuer or discovery URL with stray slashes and whitespace becomes the issuer |
| `IdpSettings.IssuerFixedExactly` | app/auth/schemas.py:88-96 | which issuers validation leaves alone |
| `IdpSettings.IssuerOnePassExactly` | app/auth/schemas.py:88-96 | for which submitted issuers the second validation, on load, changes nothing |
| `IdpSettings.IssuerPassesUnbounded` | app/auth/schemas.py:88-96 | an issuer with the discovery path pasted n times moves on each of n passes and then no more |
| `IdpSettings.CertFixedExactly` | app/auth/schemas.py:147-160 | validation leaves a certificate alone exactly when it holds no whitespace |
| `IdpSettings.CertOnePassExactly` | app/auth/schemas.py:147-160 | for which submitted certificates the second validation changes nothing |
| `IdpSettings.CertTwoPassesSuffice` | app/auth/schemas.py:147-160 | after two passes no certificate moves again |
| `IdpSettings.CertOnePassIsNotEnough` | app/auth/schemas.py:147-160 | a PEM certificate that the first pass changes and the second changes again |
| `IdpSettings.PemAndBareAgree` | app/auth/schemas.py:147-160 | a certificate pasted as PEM, whatever its line ends, and as bare base64 is stored alike |
| `IdpSettings.DeployedModelsGood` | app/auth/schemas.py:15-166 | the two settings models satisfy what the laws about connections ask |
| `Connections.DecryptEncrypt` | app/crypto.py:43-71 | decrypting what was encrypted gives the plaintext, blank included |
| `Connections.Registry.StoreSettings` | app/auth/connections.py:35-77 | writes the merged, validated, keyed and sealed settings, or nothing when they do not validate |
| `Connections.Registry.MergeSecrets` | app/auth/connections.py:47-52 | the loop keeps the stored secret for every field left blank, out or as the placeholder, and fails where decrypting one raises |
| `Connections.Registry.SealSecrets` | app/auth/connections.py:72-75 | the loop encrypts every non-empty secret not already encrypted |
| `Connections.Registry.ImportConnection` | app/auth/connections.py:158-200 | creates or updates the connection a definition names, or changes nothing |
| `ConnectionLaws.SavedSecret` | app/auth/connections.py:47-77 | a saved secret field is blank or carries the prefix; it reads back exactly when the new secret does not itself look encrypted, and reading it raises exactly when the new secret is the prefix and then something not all ASCII |
| `ConnectionLaws.NothingInClear` | app/auth/connections.py:72-75 | what is stored for such a secret is its sealed token |
| `ConnectionLaws.SecretsSurviveEdits` | app/auth/connections.py:35-77 | no sequence of saves that leaves secrets blank, missing or as the placeholder changes one, or whether reading it raises, whatever it toggles; a generated key never changes |
| `ConnectionLaws.FeatureHasKey` | app/auth/connections.py:56-70 | a save that turns a feature on leaves the key stored before, or else the generated one |
| `ConnectionLaws.DeployedKeys` | app/auth/connections.py:56-70 | which settings are secret, which of them are generated, and the flag that asks for each |
| `ConnectionLaws.PrefixedSecretLost` | app/crypto.py:51-71 | a secret that is the prefix and then ASCII that is no token of the key is stored as typed and reads back as blank |
| `ConnectionLaws.UnencodableSecretSticks` | app/crypto.py:51-71 | one that is the prefix and then something not all ASCII makes every load fail, and every later save that leaves the field alone |
| `ConnectionLaws.SavedLoadsExactly` | app/auth/connections.py:25-77 | a saved connection fails to load exactly when some new secret is of that kind |
| `ConnectionLaws.UntouchedFormKeeps` | app/auth/connections.py:80-86 | saving the redacted form unchanged keeps every setting and every secret |
| `ConnectionLaws.FormShows` | app/auth/connections.py:80-86 | in the form a secret is the placeholder when a load gives one and blank otherwise; every other setting is as loaded |
| `ConnectionLaws.FormHidesSecrets` | app/auth/connections.py:80-86 | two connections that agree on the other settings and on which secrets there are have the same form |
| `ConnectionLaws.NoSecretExported` | app/auth/connections.py:111-155 | an export carries every setting that is no protocol's secret, and no secret |
| `ConnectionLaws.ImportOntoItself` | app/auth/connections.py:139-200 | importing a connection's export onto itself keeps its columns and everything a load returns, secrets included, and touches no other connection |
| `ConnectionLaws.ImportElsewhere` | app/auth/connections.py:139-200 | importing an export where the slug is unknown creates a connection with the same export |
| `ConnectionLaws.FixedTextExactly` | app/auth/schemas.py:88-160 | which text settings can move when they are validated again |
| `ConnectionLaws.DeployedLawful` | app/auth/connections.py:25-200 | the deployed models satisfy everything these laws ask of a model |
| `RoleMap.ExtractClaim` | app/auth/rolemap.py:31-57 | the loop over path parts reads the nested value, else the whole path as one key, as a list of strings |
| `RoleMap.ClaimTextsAre` | app/auth/rolemap.py:45-57 | a text is that one text, a list of texts is those, and a missing claim or a blank name is none |
| `RoleMap.NestedOrLiteral` | app/auth/rolemap.py:31-57 | for any parts joined by dots that is a recursive lookup with literal-key fallback |
| `RoleMap.CandidateSources` | app/auth/rolemap.py:78-98 | the value lists in the order they are tried |
| `RoleMap.MeetsExactly` | app/auth/rolemap.py:60-75 | a claim value meets "equals" when it is the value, "contains" when the value is somewhere in it, "starts_with" when it begins with it, "regex" when the search finds it, and meets no other operator |
| `RoleMap.FirstMatchIs` | app/auth/rolemap.py:120-122 | the value a trace line reports is the first the rule meets, and none only if none does |
| `RoleMap.ResolveRole` | app/auth/rolemap.py:101-137 | the trace is the (source, rule) pairs in order up to the first match, whose role is the answer; with no match it is all pairs and the default |
| `RoleMap.ResolvesUnique` | app/auth/rolemap.py:101-137 | that determines role and trace |
| `RoleMap.FirstHitDecides` | app/auth/rolemap.py:101-137 | the first rule, source by source, that some value meets decides: the answer is its role, and the last line of the trace names the rule, the source and a value it meets |
| `RoleMap.NoHitDefaults` | app/auth/rolemap.py:101-137 | when no value meets any rule the answer is the default and every pair was tried |
| `RoleMap.ClaimsThenScim` | app/auth/rolemap.py:93-137 | claims_then_scim is the claims answer when a claims rule matches and the SCIM answer otherwise, and its trace is theirs in turn |
| `LocalAccounts.AccountTable.SyncLocalAdmin` | app/auth/router.py:930-1033 | reconciles the configured account, else some administrator, else a new one, and reports what it did |
| `LocalAccounts.AccountTable.CreateLocalUser` | app/routes/admin.py:586-623 | adds an account exactly when the form is acceptable |
| `LocalAccounts.AccountTable.ChangeLocalPassword` | app/routes/admin.py:627-656 | sets a person's password on an existing account |
| `LocalAccounts.AccountTable.ToggleLocalUser` | app/routes/admin.py:660-685 | refuses the actor's own account and the last active administrator |
| `LocalAccounts.AccountTable.ChangePassword` | app/routes/account.py:85-146 | needs the current password and an acceptable, different new one |
| `LocalAccounts.CreatedAccount` | app/routes/admin.py:586-623 | an acceptable form for a free address adds an active account with that password and role and nothing else; any other form changes nothing |
| `LocalAccounts.AdminReset` | app/routes/admin.py:627-656 | a reset sets the password and whether it must be changed on that account and nothing else; any other form changes nothing |
| `LocalAccounts.Toggled` | app/routes/admin.py:660-685 | a toggle turns the flag of that account round and nothing else, or changes nothing: for the actor, and for the last active administrator |
| `LocalAccounts.OwnChange` | app/routes/account.py:85-146 | a change without the current password, or to one that is short, the same or not repeated, changes nothing; any other sets the new one on that account and keeps its role and flag |
| `LocalAccounts.StartCreates` | app/auth/router.py:930-1033 | a start adds an administrator exactly when there is none and the configured address is free, and says exactly when it changed a password |
| `LocalAccounts.StartWrites` | app/auth/router.py:998-1033 | what a start writes to the account it names: the configured password or a fresh one, active, with its origin; otherwise at most the origin |
| `LocalAccounts.NeverLockedOut` | app/auth/router.py:930-1033 | from an empty database, after the first start, every run keeps an active administrator |
| `LocalAccounts.ReportedPasswordWorks` | app/auth/router.py:930-1033 | the password a start reports, or else the configured one, opens the account it names; other accounts are untouched |
| `LocalAccounts.EnabledExactly` | app/auth/router.py:998-1026 | exactly when the reconciled account ends up enabled |
| `LocalAccounts.StartKeepsPasswordExactly` | app/auth/router.py:998-1033 | exactly when a start leaves the password of an account as it is, whichever account it reconciles |
| `LocalAccounts.ChosenPasswordKeptExactly` | app/auth/router.py:998-1033 | exactly the runs of starts and other people's steps through which a password a person chose keeps working, read off the starts alone |
| `LocalAccounts.ChosenPasswordSurvives` | app/auth/router.py:1017-1018 | in particular through every start that reconciles the account with a blank environment |
| `LocalAccounts.ConfiguredStartTakesOver` | app/auth/router.py:998-1033 | one configured start takes over whichever account it reconciles, even with the chosen password: a blank start that reconciles it next issues a new one |
| `SchemaSync.Engine.SyncSchema` | app/schema_sync.py:85-131 | the loops add exactly the planned columns in order and return their names |
| `SchemaSync.PlanExactly` | app/schema_sync.py:96-129 | the plan is exactly the model columns missing from existing tables whose default can be reproduced |
| `SchemaSync.ExistingCellsKept` | app/schema_sync.py:118-128 | no run changes an existing table's rows, columns or cells |
| `SchemaSync.NewColumnsFilled` | app/schema_sync.py:106-128 | after a run every existing row holds the default in each column that was missing |
| `SchemaSync.DefaultCells` | app/schema_sync.py:46-82 | the cell each kind of default gives: NULL for an optional column without one, text and numbers as they are, booleans as 1 or 0, JSON as its text, anything else none |
| `SchemaSync.SecondRunAddsNothing` | app/schema_sync.py:85-131 | a second run adds nothing, whatever its callable defaults return |
| `SchemaSync.InterruptedRunConverges` | app/schema_sync.py:106-129 | stopping after any number of column steps and running again leaves nothing to do and the tables, columns and rows of one whole run, and the same database if callables return the same again |
| `Pagination.Paginate` | app/scim/router.py:172-182 | every parameter is brought into range and in-range ones are kept |
| `Pagination.Defaults` | app/scim/router.py:172-182 | a parameter left out or malformed means the first record and 200 of them; numbers out of range are brought to the nearest bound |
| `Pagination.PageHolds` | app/scim/router.py:358-372 | a page holds the records from startIndex on, counted from one, and no more than asked for; past the end it is empty |
| `Pagination.OneOrder` | app/scim/router.py:360 | a set of names has one order, so re-sorting per request cannot move a page |
| `Pagination.PagesTile` | app/scim/router.py:358-372 | for any page size from 1 to 200, stepping startIndex by itemsPerPage yields the whole list, each record once |

## Left out

- HTTP handling, templates, logging, event recording, the OIDC, SAML and DPoP flows and token signing.
- Real cryptography: a vault is any pair of functions where opening undoes sealing, a password hash verifies exactly its password, a cookie names one session.
- Concurrency: every request is one atomic step, and the throttle and the last-administrator guard are stated for sequential runs.
- FilterSql.LikeExact: lower-casing is a map over single characters that keeps the LIKE specials, one map for Python and one for the database; characters whose lower case is longer are not modelled. A database whose LIKE also folds ASCII case gives the same answers when both maps lower ASCII.
- FilterSql.EvalIsCertain: boolean columns hold no NULL, as the schema declares; a NULL one would answer `is` and `is not` definitely.
- FilterSql.OrderingExactly: the database orders text by code point; other collations are not modelled.
- FilterParser.Parser.ParseUnary: Python's recursion limit on deeply nested groups is not modelled.
- Throttle.FailuresBounded: runs contain no successful sign-in, which empties the list; a real-valued clock stands for the floating-point one.
- RoleMap.ResolveRole: regular expressions are an open predicate; how Python writes a non-string value is an open function, as it is in ScimPatch.
- ConnectionLaws.SecretsSurviveEdits: a generated key is a non-blank text that does not begin with the encryption prefix.
- Connections.Registry.StoreSettings: values already have their JSON types; the coercions of the settings library (a number given as text, say) are not modelled.
- Connections.Registry.ImportConnection: not-null constraints on columns other than name are not modelled.
- ScimStore.RunKeepsConsistent: case-insensitive uniqueness is only checked on creation, so only exact uniqueness is claimed; raw payloads and timestamps are not stored.
- SchemaSync.InterruptedRunConverges: a callable default is called once per run, and is fillable on both runs or on neither.
- SchemaSync.Engine.SyncSchema: column types and SQL text; tables that do not exist yet are built elsewhere.
- LocalAccounts.AccountTable: display names and sign-in times; addresses arrive lower-cased, as the code stores them.
- Group listing, which is user listing over another table; `expectations`, `lifetimes`, `safe_path`, `requested_scopes`, `diff_claims` and provider terminology, which would only add short case analyses.
