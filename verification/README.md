# Verification of the native LDAP engine

A Dafny model of the directory server in `internal/ldapserver`, of the DN type
in `internal/config` it stands on, and of a few stateful services around it.
`dafny verify dfyconfig.toml` checks the whole project.

## What is modelled

**The write path.** `DnSyntax` is the text form of distinguished names:
escaping, unescaping, splitting, trimming, printing and folded keys.
`DnSpellings` says by a grammar which texts are parsed as which name, and `Utf8`
which octets are well-formed. `Names`
are canonical names, their ancestors and the rebasing of a subtree. `Stores` is
the staged in-memory store, a map from folded key to entry that Add, Replace,
Delete and Rename change in place. `Entries` holds attribute lists and member
values, which stay text that is parsed on every reading: a member is known by its
folded name, but the scope test looks at the DN as its first value spells it.
`MemberOf` and `RefInt` are the two plugins that repair derived state inside the
transaction of each write; `HashValues` and `CutNames` say what the values they
write are read back as. `Changes` and `Writes` are the edits of an entry, and
`Edits` says what a change leaves without the order in which it is worked out.
`Server` (module `Servers`) has the four write handlers, `Outcomes` their answers
condition by condition and what each leaves in the directory attribute by attribute,
`References` whom the groups name afterwards, and `Runs` has whole runs of requests.

The central invariant is `Converged`: every managed entry's memberOf set is the
set of groups that reach it. `Graphs.UnseededUnaffected` shows when recomputing a
seeded set is enough: what a write passes over (`Overlooked`) must keep its
groups. `Convergence` carries that through each kind of write and both plugin
orders. `Runs.RunExact` states it for whole runs of the server: every tree is exact
if and only if the edit of every call keeps exactness (`KeepsExact`), and
`Runs.CommitExact` says so for one call. `Spellings` gives the condition that a
caller can meet: when member values spell managed suffixes as they are configured,
nothing is overlooked, and `Runs.RunConverges` follows, in either plugin order.
`Runs.HandleAll` shows that an open server goes through such runs. A tree is
`WellShaped` when its entries sit under their own names, below a managed suffix,
with every parent present; every handler keeps that. `Orders` says exactly what
becomes of moves whose redirected values do not survive, and `Samples` and
`RunSamples` hold concrete directories and requests on which the server does less
than it promises.

**The ACI pipeline.** `Acis` has the printer, the lexer and the recursive
descent parser of access control instructions. `AciRoundTrip` shows that they undo
each other, `AciGrammar` that any instruction, allow or deny, survives being written
and read, and that the parser accepts exactly what a grammar of characters, tokens
and clauses derives. `TargetAttr` shows which lists compile, and that compiling the scenario's allow and deny
lists keeps their meaning through to the evaluator.

**Wire format.** `Ber` compares the iterative element scanner and its explicit
stack with a recursive grammar (section 8.1 of ITU-T X.690 as restricted by
section 5.1 of RFC 4511). `Frames` reads messages off a stream, one SEQUENCE at
a time, in front of that scan. `BerTrees` writes elements out from trees, tags and
lengths by division, and shows that scan and framing accept exactly what is written
so. `Codec` and `Messages` are the filter and request codecs over an abstract packet
tree, and `Protocol` compares the decoder with the messages of RFC 4511, tag by tag.

**Text services.** `Matching` is value normalization and the leftmost-greedy
substring matcher; `LdifText`, `Ldif` and `LdifReader` are the LDIF export and
its reader (RFC 2849), and `LdifShape` bounds the lines and characters of an export.

**Searches.** `Searches` evaluates filters, says what they mean in two-valued logic
and with missing rights, and compares the scan of a scope with
the walk over an equality index; `Indexes` keeps the index itself and shows that
its postings miss nothing.

**Stateful machines.** `Cycles` (group graphs), `KeyedLocks` (the refcounted
keyed lock), `Leases` (the cancellable mutation lease), `Connections` (in-flight
operations and StartTLS), `Passwords` (password history) and `RateLimits` (the
sliding window, whose calls enter in any order, each with the time it read before
it came to the mutex). Each concurrent part is a state machine with a step relation
(`Next`, `Enabled`), its runs (`After`) and an invariant `Good` that holds along
all of them (`RunKeeps`, `EveryRun`), and a class whose methods carry out the
atomic steps, with a `Run` that takes any schedule.

## Conventions

- One `char` is one byte. Case folding and white space are ASCII. Integers are
  unbounded: a high tag has at most nine octets of seven bits and a length at
  most eight octets, so both fit the 64 bits the code gives them.
- From `Names` on, the names of entries, of suffixes and in requests are
  canonical: lowercase, and without values that end in a tab. Such names are their
  own spelling, which is what lets the ancestor tests that compare values exactly
  (internal/config/dn.go:173-185) agree with keys that fold case. Renames that
  change only the case of a name are therefore outside the model. Member values
  are under no such restriction: they are any text.
- Managed suffixes are `Siblings`: none lies below another, as the configuration
  demands (internal/config/settings.go:190-236). `ProtectsMemberOf` says that
  clients cannot write memberOf, which the built-in schema declares operational
  (internal/ldapserver/schema_registry.go:245).
- Access rights, the schema check, matching rules, time stamps and UUIDs are
  parameters of the handlers (`Policy`, `Stamp`): every theorem holds for all of
  them. So are base64, attribute naming and the schema of the ACI pipeline, with
  the laws they need stated as `Lawful`.
- Both plugin orders are modelled; the server installs memberOf first
  (internal/config/plan.go:48). The order of listings, of memberOf values and of
  map iteration is left open, so results hold for every order.
- A password hash is a value that verifies exactly its own plaintext.

## Where the code does less than promised

Each of these has its exact condition and a lemma with a concrete input.

- A value that ends in a tab does not survive printing and parsing: exactly
  `DnSyntax.ParsePrintedDN`, at an input `DnSyntax.TabEndIsLost`.
- The store's key-suffix test for children can refuse to delete a leaf, because
  an escaped comma inside a value looks like a boundary: exactly
  `Stores.Tx.Delete`, at an input `Stores.LeafCanLookLikeParent` and
  `Names.KeySuffixWithoutDescent`.
- The memberof plugin tests the scope of a member on its spelling, by exact
  comparison of values (internal/ldapserver/memberof.go:71-73), but its index and
  its recomputation go by folded names. A group whose first value for a member
  spells the managed suffix in another case is therefore counted, but does not
  cause that member to be recomputed when the group is written, deleted or moved.
  The memberOf sets are exact afterwards if and only if no overlooked entry has
  changed its groups: exactly `Runs.CommitExact`, by request `Runs.AddCommitExact`,
  `Runs.ModifyCommitExact`, `Runs.DeleteCommitExact`, `Runs.MoveCommitExact`, and on
  the values of one group `Runs.DirectModify`, at an input
  `RunSamples.ModifyLeavesStale`.
- A redirected uniqueMember value is written without escaping `#`, so a name
  with a `#` behind the first byte of a value is cut when it is read again, and a
  redirected value of either attribute loses a tab at the end of a value: exactly
  `HashValues.TaggedExactly`, `HashValues.FollowsExactly` and
  `HashValues.RedirectExactly`, at an input `Entries.HashIsLost` and
  `DnSyntax.TabEndIsLost`.
- A rename or move that cuts a reference in this way can leave memberOf sets that
  the values no longer support: exactly `Runs.MoveCommitExact` (group by group
  `Orders.DirectKeepsReach`, and membership by membership when groups nest
  `Orders.NestedKeepsReach`), at an input `RunSamples.MoveLeavesStale`.
- For such a move the two plugin orders can end with different memberOf sets,
  although never with different members (`Convergence.MoveOrderIndependent`). For
  a moved entry and direct membership exactly `Orders.MovedEntryAgrees`, at an
  input `Samples.OrderMatters`.
- Adding an entry that a group already names leaves its memberOf unset, unless
  the new entry is recomputed because its own members lead to it: exactly
  `Runs.AddCommitExact`, at an input `RunSamples.AddLeavesStale`.
- A carriage return in a DN is read back from ACI text as a line feed: exactly
  `Acis.DnRoundTrip` and `AciRoundTrip.CompiledRoundTrip`, at an input
  `Acis.ReturnIsLost` and `AciRoundTrip.CompiledReturnIsLost`.
- The filter and compare encoders let an empty attribute name through that the
  decoder refuses: exactly `Messages.MessageRoundTrip`, at an input
  `Messages.UnnamedCompareIsRefused`.
- The decoder accepts unnamed extended requests, and filters beyond the depth
  limit, that the encoder refuses: exactly `Messages.DecodedMessage` and
  `Codec.DecodedFilter`, at an input `Messages.UnnamedExtendedIsOnlyReadable` and
  `Codec.DeepFilterIsOnlyReadable`.
- LDIF values and DNs written in the clear are lost when they contain `:: `, and
  so are attributes called version: exactly `LdifReader.ExportRoundTrip`, at an
  input `LdifReader.ClearDnIsLost` and `LdifReader.VersionIsLost`.
- Creating a group checks only for itself as a member, so a cycle can close
  through a member that already names the new id: exactly `Cycles.Groups.Create`,
  at an input `Cycles.CreateClosesCycle`.
- ModifyDN checks names before rights, so a denied caller can learn which of the
  names in its request exist: exactly `Runs.DeniedModifyDN`, and nothing else
  (`Runs.DeniedModifyDNHides`), at an input `RunSamples.DenialTellsNames`.
- The rate limiter reads the clock before it takes its mutex
  (internal/app/ratelimit.go:49-51), so concurrent calls can enter out of the order
  of their times, and hits are then neither trimmed nor swept as meant. The sweep
  is right, whenever it comes, exactly when a key's last hit is its latest
  (`RateLimits.SweepExactly`), and trimming exactly when its hits are in order
  (`RateLimits.TrimExactly`); in turn both always are (`RateLimits.DecidesInTurn`).
  Inputs: `RateLimits.OvertakingExceedsLimit` and
  `RateLimits.OvertakingRefusesEarly`.

The cycle checks of two different groups do not compose
(`Cycles.ChecksDoNotCompose`). This is no failure of the services: every write
takes the mutation lease before its check (internal/app/services.go:196,
internal/app/groups.go:135), and `Leases.EveryRun` gives the lease to one caller
at a time. The lemma shows that the lock of one group would not be enough.

## Model

| member | source | states |
|---|---|---|
| `DnSyntax.UnescapeEscape` | internal/config/dn.go:50-71 | unescaping gives back every escaped value without a NUL byte |
| `DnSyntax.ParsePrintedDN` | internal/config/dn.go:19-48 | parsing the printed form gives the DN back if and only if no value ends in a tab |
| `DnSyntax.TabEndIsLost` | internal/config/dn.go:293-306 | an RDN whose value ends in a tab is not read back |
| `DnSyntax.StringInjective` | internal/config/dn.go:94-100 | two DNs with the same text are equal |
| `DnSyntax.FoldedKeyIdentity` | internal/config/dn.go:128-134 | folded keys are equal if and only if attributes and lowercased values agree RDN by RDN |
| `DnSyntax.ReparsedParentDropsLeaf` | internal/ldapserver/op_write.go:53-74 | re-parsing behind the first unescaped comma drops exactly the leaf, if and only if no other value ends in a tab; a single RDN has no parent |
| `DnSyntax.ParsedIsWellFormed` | internal/config/dn.go:19-48 | every parsed DN is non-empty with valid attributes and values |
| `DnSyntax.IndexUnescaped` | internal/config/dn.go:209-225 | the loop finds the first separator outside an escape, or -1 |
| `DnSyntax.SplitUnescaped` | internal/config/dn.go:187-207 | the loop's parts are those of the recursive split, on which the round trips are proved |
| `DnSyntax.EscapeAttributeValue` | internal/config/dn.go:50-71 | the loop's text unescapes to the value |
| `DnSyntax.UnescapeValue` | internal/config/dn.go:260-291 | the loop decodes exactly the texts with complete escapes and valid UTF-8 |
| `DnSyntax.TrimRDNWhitespace` | internal/config/dn.go:293-306 | the loop trims blanks and keeps an escaped trailing space |
| `DnSyntax.Parse` | internal/config/dn.go:19-48 | the parse loop accepts and yields what the recursive parser does, and the result is well formed |
| `DnSpellings.UnescapeExactly` | internal/config/dn.go:260-291 | a text is unescaped to a value if and only if it is one of its spellings: each byte as it is, one of ten behind a backslash, or any but the null byte in two hexadecimal digits, the high one first |
| `DnSpellings.ParseExactly` | internal/config/dn.go:19-48 | a text is parsed as a DN if and only if it holds no null byte and is one of the ways to write that DN: types in any case, blanks around RDNs, white space around types, spelled values in UTF-8 without a bare comma or plus sign |
| `DnSpellings.TypeExactly` | internal/config/dn.go:227-258 | a type is valid if and only if it is a letter followed by letters, digits and hyphens, or two numbers or more with dots between them |
| `Utf8.ValidExactly` | internal/config/dn.go:287-289 | octets are well-formed UTF-8 if and only if they are the encoding of Unicode scalar values |
| `Text.LowerTable` | internal/config/dn.go:128-134 | each of the 26 capital letters becomes its small letter, and no other byte changes |
| `Names.KeyInjective` | internal/config/dn.go:128-134 | store keys identify canonical names |
| `Names.RebaseUnder` | internal/config/dn.go:148-160 | a rebased name lies at or below the new place and keeps its relative part |
| `Names.RebaseSpelling` | internal/config/dn.go:148-160 | a DN in any spelling is rebased exactly when its folded name is, and to a DN of the rebased name |
| `Names.MovedInjective` | internal/config/dn.go:148-160 | distinct names of a moved subtree stay distinct |
| `Names.MovedIdempotent` | internal/ldapserver/memberof.go:94-108 | mapping old names to new ones twice is mapping them once, when neither root lies above the other |
| `Names.ApartDescendants` | internal/config/dn.go:173-185 | no name lies below two incomparable ones |
| `Names.UnderHasKeySuffix` | internal/ldapserver/fakes.go:198-246 | the key prefilter misses no descendant |
| `Names.KeySuffixWithoutDescent` | internal/ldapserver/fakes.go:198-246 | the key prefilter admits a name that is not a descendant |
| `Stores.Store.constructor` | internal/ldapserver/fakes.go:67-79 | a new store is empty and open |
| `Stores.Tx.Get` | internal/ldapserver/fakes.go:111-117 | looking a name up returns its entry or nothing |
| `Stores.Tx.Subtree` | internal/ldapserver/fakes.go:136-151 | lists each entry at or below the name exactly once; none when the name is absent |
| `Stores.Tx.Children` | internal/ldapserver/fakes.go:119-134 | lists each entry right below the name exactly once; none when the name is absent |
| `Stores.Tx.Add` | internal/ldapserver/fakes.go:153-166 | adds the entry, or refuses an existing name and changes nothing |
| `Stores.Tx.Replace` | internal/ldapserver/fakes.go:168-181 | replaces an existing entry, or refuses and changes nothing |
| `Stores.Tx.Delete` | internal/ldapserver/fakes.go:183-196 | removes exactly the entry when no key ends in its key behind a comma, and then nothing was below it; otherwise changes nothing |
| `Stores.LeafCanLookLikeParent` | internal/ldapserver/fakes.go:183-196 | a leaf that Delete refuses |
| `Stores.Tx.Rename` | internal/ldapserver/fakes.go:198-246 | succeeds if and only if no moved entry lands on a staying one; then every entry at or below the old name is at its rebased name with its attributes, all others untouched; a refused rename changes nothing |
| `Stores.Tx.CollectMoves` | internal/ldapserver/fakes.go:208-224 | the relocated keys are exactly those of true descendants |
| `Stores.Tx.Clashes` | internal/ldapserver/fakes.go:225-232 | detects exactly the moves that would merge entries |
| `Stores.RenameResult` | internal/ldapserver/fakes.go:198-246 | taking all moved entries out before putting any back loses and merges nothing |
| `Stores.RenameOntoEntry` | internal/ldapserver/fakes.go:198-246 | a rename onto another existing entry is refused |
| `Graphs.UpwardClosureIsReaching` | internal/ldapserver/memberof.go:264-330 | an upward closure of sound finds is the set of all groups that reach the entry |
| `Graphs.UnseededUnaffected` | internal/ldapserver/memberof.go:83-186 | after any change to some groups, what reaches an entry outside the seeds is unchanged, if that holds of the entries at which memberships leak past the seeds |
| `Graphs.SameReachByEdges` | internal/ldapserver/memberof.go:264-330 | two group graphs give every entry the same groups if and only if every membership of each is a chain of memberships of the other |
| `Entries.MemberDNs` | internal/ldapserver/memberof.go:354-375 | lists exactly the names that member and uniqueMember values parse to, each once, with the DN as the first value that names it spells it |
| `Entries.SetAttrValues` | internal/ldapserver/memberof.go:377-391 | sets its attribute's values and touches no other |
| `Entries.WithMemberOfFacts` | internal/ldapserver/memberof.go:302-329 | writing memberOf sets its values and keeps the values of every attribute but memberOf and objectClass, every object class but nsmemberof, and group status; nsmemberof is present if and only if the set is not empty |
| `Entries.FilterMemberValues` | internal/ldapserver/refint.go:204-232 | compacts the attribute list to the kept values, and reports exactly whether one was dropped |
| `Entries.MapMemberValues` | internal/ldapserver/refint.go:236-252 | rewrites member values only, and reports exactly whether the entry changed |
| `Entries.NameOfKey` | internal/ldapserver/memberof.go:354-375 | a member value written as a name's text is read as that name |
| `Entries.NameOfTagged` | internal/ldapserver/matching.go:232-249 | a hash-safe DN in any spelling is read back from a uniqueMember value with any bit-string suffix |
| `Entries.HashIsLost` | internal/ldapserver/matching.go:232-249 | a name that is not read back from uniqueMember |
| `CutNames.PrintedNames` | internal/ldapserver/matching.go:232-249 | any DN written as a member value, with any bit-string suffix, is read as some name, even where it is cut or loses a tab |
| `HashValues.TaggedExactly` | internal/ldapserver/matching.go:232-249 | a DN in any spelling is read back from uniqueMember as the name it has if and only if no value has a hash behind its first byte |
| `HashValues.FollowsExactly` | internal/ldapserver/refint.go:94-132 | whatever a member or uniqueMember value says, what a move turns it into names the new place of what it named, if and only if its new DN has no value that ends in a tab and, in uniqueMember, is hash-safe |
| `HashValues.RedirectExactly` | internal/ldapserver/refint.go:94-132 | all of an entry's member and uniqueMember values follow a move if and only if each meets that condition |
| `MemberOf.Plugin.IndexGroups` | internal/ldapserver/memberof.go:233-259 | the index lists, for every name, exactly the managed groups whose mapped members include it |
| `MemberOf.Plugin.Seeds` | internal/ldapserver/memberof.go:109-147 | seeds are exactly the members in scope, as spelled, of the group before and after the write and, for a move, the moved managed entries and the members in scope of moved groups |
| `MemberOf.Plugin.Expand` | internal/ldapserver/memberof.go:155-179 | the worklist ends with exactly the entries at or below the seeds, over memberships whose spelling is in scope |
| `MemberOf.Plugin.ReachingGroups` | internal/ldapserver/memberof.go:273-300 | the upward search finds exactly the groups that reach the entry, direct ones only when not nested |
| `MemberOf.Plugin.Recompute` | internal/ldapserver/memberof.go:264-330 | the entry's memberOf set becomes its reaching groups; all its other attributes, its other object classes and every other entry stay; an absent entry is skipped |
| `MemberOf.Plugin.AfterWrite` | internal/ldapserver/memberof.go:83-186 | exactly the seeds and, when nested, what lies below them are recomputed over the mapped graph, each changed in memberOf and nsmemberof alone |
| `MemberOf.Plugin.FixupIn` | internal/ldapserver/memberof.go:193-219 | recomputes exactly the managed entries, each in memberOf and nsmemberof alone |
| `MemberOf.RecomputedKeepsGraph` | internal/ldapserver/memberof.go:264-330 | recomputation never changes the group graph |
| `RefInt.Plugin.AfterWrite` | internal/ldapserver/refint.go:78-136 | a delete drops references to the entry in every managed group, a rename redirects those at or below the old name, anything else leaves the tree alone |
| `RefInt.Plugin.RepairGroups` | internal/ldapserver/refint.go:177-199 | repairs each managed group once and no other entry |
| `RefInt.DropFacts` | internal/ldapserver/refint.go:80-93 | the repaired group names what it named, without the deleted entry |
| `RefInt.FollowsName` | internal/ldapserver/refint.go:94-132 | a rewritten value whose new DN is safe to write is read back as that DN, and names the new place; any other value keeps its name |
| `RefInt.RedirectFacts` | internal/ldapserver/refint.go:94-132 | the repaired group names the image of what it named |
| `RefInt.RedirectKeepsRest` | internal/ldapserver/refint.go:94-132 | redirecting keeps the values of every attribute but member and uniqueMember |
| `Convergence.ModifyConvergesExactly` | internal/ldapserver/memberof.go:83-186 | after a modification and the seeded recomputation every memberOf set is exact if and only if every overlooked entry belongs to the same groups as before |
| `Convergence.AddConvergesExactly` | internal/ldapserver/memberof.go:83-186 | after an add every memberOf set is exact if and only if no entry is overlooked and the new entry is recomputed when a managed group names it |
| `Convergence.DeleteConvergesExactly` | internal/ldapserver/memberof.go:83-186 | after a delete every remaining memberOf set is exact if and only if no entry is overlooked |
| `Convergence.ForgettingConverges` | internal/ldapserver/refint.go:80-93 | dropping references to an absent entry changes nothing about whether every memberOf set is exact |
| `Convergence.DeleteRan` | internal/ldapserver/refint.go:80-93 | the same for a delete with both plugins, in either order, the second one seeing what the first did |
| `Convergence.MoveConvergesExactly` | internal/ldapserver/memberof.go:83-186 | after a move every memberOf set is what the graph with mapped names says, whether or not values were already redirected, if and only if every overlooked entry keeps its groups |
| `Convergence.MoveRecomputed` | internal/ldapserver/memberof.go:83-186 | after a move a recomputed entry carries what the graph with mapped names says, any other what it carried before |
| `Convergence.MoveRan` | internal/ldapserver/memberof.go:83-186 | a move whose redirected values survive leaves, in either plugin order, every memberOf set exact if and only if every overlooked entry keeps its groups |
| `Convergence.RedirectedGraph` | internal/ldapserver/refint.go:94-132 | redirecting the values turns the mapped group graph into the plain one |
| `Convergence.MoveOrderIndependent` | internal/ldapserver/memberof.go:87-108 | on any move, from any tree, memberof first and referint first end with the same member values, members and groups; when the redirected values survive, also with the same memberOf sets, and the members are the images of the old ones |
| `Orders.SafeTreeExactly` | internal/ldapserver/refint.go:94-132 | a tree is safe for a move if and only if every member and uniqueMember value of a managed group names afterwards the new place of what it named |
| `Orders.MovedEntryMemberOf` | internal/ldapserver/memberof.go:87-147 | what either plugin order gives a moved entry: the groups of the mapped graph, or those of the mapped graph of the redirected values |
| `Orders.MovedEntryAgrees` | internal/ldapserver/memberof.go:87-147 | for direct membership, the two orders agree on a moved entry if and only if redirecting the values makes no managed group gain or lose it |
| `Orders.MoveRanExactly` | internal/ldapserver/memberof.go:83-186 | with memberof first, a move leaves every memberOf set exact if and only if the redirected values give every managed entry the groups it was recomputed with or, where it was not, the ones it had |
| `Orders.MoveKeepsReach` | internal/ldapserver/refint.go:94-132 | if every overlooked entry keeps its groups, that holds if and only if redirecting the values changes for no managed entry which groups reach it |
| `Orders.SafeKeepsReach` | internal/ldapserver/refint.go:94-132 | a safe move changes for no entry which groups reach it |
| `Orders.DirectKeepsReach` | internal/ldapserver/refint.go:94-132 | for direct membership, that condition holds if and only if every managed group still names the managed entries it named, at their new places, and no others |
| `Orders.NestedKeepsReach` | internal/ldapserver/refint.go:94-132 | for nested membership it holds if and only if every membership that the redirection takes away is still there through other groups, and every one that it adds was |
| `Samples.OrderMatters` | internal/ldapserver/refint.go:94-132 | a well-shaped directory and a move after which the two orders leave different memberOf sets, the one of the server not exact |
| `Spellings.PutOverlooksNothing` | internal/ldapserver/memberof.go:109-179 | when member values spell managed suffixes as configured, an add, a modification or a rename in place overlooks no entry |
| `Spellings.DeleteOverlooksNothing` | internal/ldapserver/memberof.go:109-179 | neither does a delete |
| `Spellings.MoveOverlooksNothing` | internal/ldapserver/memberof.go:109-179 | nor a move, whatever it turns the values into |
| `Convergence.FixupChangesNothing` | internal/ldapserver/memberof.go:193-219 | on an exact tree a fixup changes no memberOf set |
| `Convergence.FixupConverges` | internal/ldapserver/memberof.go:193-219 | on any tree a fixup makes every memberOf set exact |
| `Changes.Draft.Apply` | internal/ldapserver/op_write.go:294-342 | one change edits the attribute list in place as the specification says; a refused one leaves it as it was |
| `Changes.Compact` | internal/ldapserver/op_write.go:384-395 | compacting in the same storage keeps exactly the values that do not match, in order |
| `Changes.RemoveEach` | internal/ldapserver/op_write.go:323-325 | removes the matches of every listed value |
| `Changes.AttrIndex` | internal/ldapserver/op_write.go:344-351 | finds the first attribute of that name |
| `Changes.DedupMatched` | internal/ldapserver/op_write.go:407-415 | the loop keeps the first of each group of matching values |
| `Changes.ChangeFacts` | internal/ldapserver/op_write.go:294-342 | a change touches its own attribute only and keeps attribute names distinct |
| `Changes.RemoveMatchedMembers` | internal/ldapserver/op_write.go:384-395 | exactly the matching values are removed |
| `Changes.DedupMembers` | internal/ldapserver/op_write.go:407-415 | nothing is invented, the existing values stay in front, and every value added is represented |
| `Changes.DeleteUndoesAdd` | internal/ldapserver/op_write.go:294-342 | deleting the values an accepted add put in restores the attribute exactly |
| `Changes.DeletedValues` | internal/ldapserver/op_write.go:294-342 | a delete of present values is accepted and removes their matches |
| `Edits.AddExactly` | internal/ldapserver/op_write.go:294-311 | an add is refused if and only if the attribute holds a match for a given value; otherwise the first of each group of matching values stands behind those that were there |
| `Edits.DeleteExactly` | internal/ldapserver/op_write.go:312-329 | a delete is refused if and only if the attribute, or a match for a given value, is missing; without values the attribute goes, with values exactly their matches go, and the attribute with the last of them |
| `Edits.ReplaceExactly` | internal/ldapserver/op_write.go:330-338 | a replace is never refused: the attribute holds the first of each group of matching given values, and is absent if and only if none was given |
| `Edits.ReplacedValues` | internal/ldapserver/op_write.go:330-338 | after a replace only given values are there, every given value is there or matched by one that is, and no value matches a later one |
| `Edits.FirstOfEachIsDedup` | internal/ldapserver/op_write.go:407-415 | the values kept by the deduplication, and their order, are determined by which value matches which |
| `Edits.RestIsOnly` | internal/ldapserver/op_write.go:384-395 | so are the values left by a removal |
| `Edits.ChangeKeepsOthers` | internal/ldapserver/op_write.go:294-342 | whatever the change, the attributes of other names stay as they are, and in order |
| `Edits.SetAttrHas` | internal/ldapserver/memberof.go:377-391 | setting values makes an attribute there, setting none takes it away, and no other attribute comes or goes |
| `Writes.EditRdnFacts` | internal/ldapserver/op_write.go:684-699 | the RDN edit adds no value but the new RDN's to any attribute, and keeps attribute names distinct |
| `Writes.EditRdnExactly` | internal/ldapserver/op_write.go:684-699 | what every attribute holds after the edit: deleteoldrdn removes the values that match the old RDN value and keeps the others, and the new value is appended unless a matching one is left |
| `Writes.EditRdnKeepsNew` | internal/ldapserver/op_write.go:684-699 | after the edit the entry carries its new RDN value, whatever the old one was |
| `Writes.StampedExactly` | internal/ldapserver/op_attrs.go:94-97 | a modification sets modifyTimestamp to the time and modifiersName to the author, and leaves every other attribute |
| `Writes.StampedNewExactly` | internal/ldapserver/op_attrs.go:81-89 | an add sets entryUUID, both timestamps to the time and both names to the author, and leaves every other attribute |
| `Servers.Server.RunPlugins` | internal/ldapserver/op_write.go:199-206 | both plugins run in order over the edited tree and keep its shape |
| `Servers.PluginsKeepShape` | internal/ldapserver/op_write.go:199-206 | the plugins neither add nor remove an entry and keep every parent present |
| `Servers.PluginsKeepRest` | internal/ldapserver/op_write.go:199-206 | the plugins leave every attribute but memberOf, member, uniqueMember and objectClass, and every object class but nsmemberof, of every entry as the write left them |
| `Servers.Server.Add` | internal/ldapserver/op_write.go:83-139 | the result code for every parsed request; a refused add changes nothing, a committed one is the edit followed by the plugins, and the shape is kept |
| `Servers.Server.Modify` | internal/ldapserver/op_write.go:213-281 | the same for modify |
| `Servers.Server.Delete` | internal/ldapserver/op_write.go:432-463 | the same for delete |
| `Servers.Server.ModifyDN` | internal/ldapserver/op_write.go:506-714 | the same for rename and subtree move |
| `Servers.Server.ModifyDNIn` | internal/ldapserver/op_write.go:566-714 | the transaction's gates and outcome, in order |
| `Servers.Server.Relocate` | internal/ldapserver/op_write.go:671-714 | once the gates passed, only the schema can refuse; the store rename cannot fail |
| `Servers.Server.Touch` | internal/ldapserver/op_write.go:657-670 | a rename to the same name only stamps the entry |
| `Servers.Server.CheckClientAttrs` | internal/ldapserver/op_attrs.go:125-132 | accepts exactly lists of client-modifiable attributes |
| `Servers.Server.CheckDuplicateAttrTypes` | internal/ldapserver/op_write.go:419-429 | accepts exactly lists with distinct attribute types |
| `Servers.Server.CheckChanges` | internal/ldapserver/op_write.go:213-281 | the access and modifiability gate of each change, the first failing one deciding |
| `Servers.Server.ApplyAll` | internal/ldapserver/op_write.go:213-281 | applies the changes in order and stops at the first refused one |
| `Servers.ApplyChangesFacts` | internal/ldapserver/op_write.go:213-281 | no accepted list of client changes alters memberOf |
| `Servers.RenameIsFree` | internal/ldapserver/op_write.go:522-604 | the handler's gates make the store's rename legal |
| `Servers.RenameKeepsShape` | internal/ldapserver/op_write.go:590-604 | a subtree rename below an existing entry keeps every parent present |
| `Servers.DeleteKeepsShape` | internal/ldapserver/op_write.go:432-463 | deleting a leaf keeps every parent present |
| `Servers.MoveStaysSafe` | internal/ldapserver/op_write.go:684-699 | a move that was safe to redirect stays so after the RDN edit |
| `Outcomes.AddAnswers` | internal/ldapserver/op_write.go:83-139 | each answer to an Add holds if and only if its conditions do, each written out: success with the right to add, below an existing parent or at a suffix, client attributes only, each type once, a valid entry and a free name |
| `Outcomes.GateAnswers` | internal/ldapserver/op_write.go:213-240 | the first change that may not be made decides: no write right, or an attribute clients may not write |
| `Outcomes.ChangesInTurn` | internal/ldapserver/op_write.go:258-263 | the changes of a request are made one after the other, up to the first refused one |
| `Outcomes.ModifyAnswers` | internal/ldapserver/op_write.go:213-281 | each answer to a Modify holds if and only if its conditions do |
| `Outcomes.DeleteAnswers` | internal/ldapserver/op_write.go:432-463 | each answer to a Delete holds if and only if its conditions do |
| `Outcomes.ModifyDNSucceeds` | internal/ldapserver/op_write.go:506-714 | a ModifyDN succeeds if and only if both names are managed, in one suffix for a move, the entry exists and is no suffix, the new parent exists elsewhere, the new name is free, and every right is held: entry write not denied, write on the new RDN attribute, on the old one with deleteoldrdn, and moddn on the new parent of a move |
| `Outcomes.ModifyDNRefusals` | internal/ldapserver/op_write.go:506-714 | every other answer holds if and only if its condition is the first that fails |
| `Outcomes.AddedContents` | internal/ldapserver/op_write.go:83-139 | a committed Add puts in the entry as it was sent, with its five stamps, and touches no other |
| `Outcomes.ModifiedContents` | internal/ldapserver/op_write.go:213-281 | a committed Modify leaves its entry with the changes and two stamps, and touches no other |
| `Outcomes.RenamedPlaces` | internal/ldapserver/op_write.go:506-714 | a committed ModifyDN puts every entry at or below the old name at its place below the new one, merges none, and leaves the attributes of all but the renamed entry |
| `Outcomes.RenamedContents` | internal/ldapserver/op_write.go:684-714 | what every attribute of the renamed entry holds; an entry renamed to its own name is only stamped |
| `Outcomes.EditRdnHas` | internal/ldapserver/op_write.go:684-699 | which attributes the edit of the RDN leaves there: the old one only with values, the new one, and the others |
| `Outcomes.CommittedContents` | internal/ldapserver/op_write.go:199-206 | after the plugins every attribute that they do not write is, in every entry, as the edit left it |
| `References.GroupMeaning` | internal/ldapserver/memberof.go:345-349 | an entry is a group if and only if an object class is groupOfNames or groupOfUniqueNames, in any case |
| `References.MemberMeaning` | internal/ldapserver/memberof.go:351-375 | a group names exactly the names that its member values parse to, and its uniqueMember values in front of their bit-string suffix |
| `References.MemberOfIsThere` | internal/ldapserver/memberof.go:302-329 | the memberOf attribute is there if and only if it has a value |
| `References.AfterOther` | internal/ldapserver/refint.go:78-136 | after an add, a modification or a rename in place every entry names whom it named |
| `References.DeleteLeavesNoReference` | internal/ldapserver/refint.go:80-93 | after a committed delete no group names the entry, and whom else it names has not changed |
| `References.MoveLeadsReferences` | internal/ldapserver/refint.go:94-132 | after a committed move whose redirected values survive every managed group names the new places of whom it named |
| `Runs.AddCommitExact` | internal/ldapserver/op_write.go:83-139 | a committed add leaves every memberOf set exact if and only if no entry is overlooked and the new entry is recomputed when a managed group names it |
| `RunSamples.AddLeavesStale` | internal/ldapserver/op_write.go:83-139 | a directory with exact memberOf sets and an add after which they are not |
| `Runs.ModifyCommitExact` | internal/ldapserver/op_write.go:213-281 | a committed modify leaves every memberOf set exact if and only if every overlooked entry belongs to the same groups as before |
| `Runs.DirectModify` | internal/ldapserver/op_write.go:213-281 | for direct membership that holds if and only if every entry that the group gains or loses is named, before or after, by a first value that spells its suffix as configured |
| `RunSamples.ModifyLeavesStale` | internal/ldapserver/memberof.go:109-122 | a directory with exact memberOf sets and a modify, adding a member whose suffix is in another case, after which they are not |
| `Runs.DeleteCommitExact` | internal/ldapserver/op_write.go:432-463 | a committed delete, in either plugin order, leaves every memberOf set exact if and only if no entry is overlooked |
| `Runs.MoveCommit` | internal/ldapserver/op_write.go:506-714 | a committed rename or subtree move whose redirected values survive, in either plugin order, leaves every memberOf set exact if and only if every overlooked entry keeps its groups |
| `Runs.MoveCommitExact` | internal/ldapserver/op_write.go:506-714 | in the server's plugin order, a committed rename or move leaves every memberOf set exact if and only if the redirected values give every managed entry the groups it was recomputed with or, where it was not, the ones it had |
| `RunSamples.MoveLeavesStale` | internal/ldapserver/op_write.go:506-714 | a directory with exact memberOf sets and a rename after which they are not |
| `Runs.CommitExact` | internal/ldapserver/memberof.go:83-186 | in the server's plugin order, whatever the committed request, every memberOf set is exact afterwards if and only if the edit keeps exactness, which is decided before a plugin runs |
| `Runs.CommitConverges` | internal/ldapserver/memberof.go:83-186 | in either plugin order, every committed clean request restores exactness for all entries although only seeded ones were recomputed |
| `Runs.RunConverges` | internal/ldapserver/memberof.go:83-186 | in every run of clean requests from an exact tree, in either plugin order, every tree is exact |
| `Runs.RunExact` | internal/ldapserver/memberof.go:83-186 | a run of the server from an exact tree stays exact throughout if and only if the edit of every committed call keeps exactness |
| `Runs.CommitKeepsShape` | internal/ldapserver/op_write.go:83-714 | every committed request, clean or not, keeps entries under their own names with every parent present |
| `Runs.ShapeAlong` | internal/ldapserver/op_write.go:83-714 | along every run each tree keeps that shape |
| `Runs.DenialHidesTree` | internal/ldapserver/op_write.go:83-463 | for access decisions that do not themselves depend on the directory: the answer to a denied add, modify or delete is the same for every directory |
| `Runs.DeniedModifyDN` | internal/ldapserver/op_write.go:590-620 | two directories answer a denied ModifyDN alike if and only if its place is refused already, or they agree on whether the entry is missing, the move would be into itself, and the new name is taken |
| `Runs.DeniedModifyDNHides` | internal/ldapserver/op_write.go:590-620 | so directories with the same entry, new place and new parent answer it alike |
| `RunSamples.DenialTellsNames` | internal/ldapserver/op_write.go:590-620 | two directories that differ in one name, and a denied ModifyDN that they answer differently |
| `Runs.Handle` | internal/ldapserver/op_write.go:83-714 | dispatching any parsed request gives the specified code and tree, and failures change nothing: a step of a run while the store is open |
| `Runs.HandleAll` | internal/ldapserver/op_write.go:83-714 | whatever requests come, an open server goes through a run, from the tree it has to the tree it ends with |
| `Runs.Fixup` | internal/ldapserver/memberof.go:193-219 | afterwards every memberOf set is exact, and none changed if they were exact before |
| `Ber.ScanTLVs` | internal/ldapserver/codec_ber.go:203-299 | succeeds if and only if the buffer is empty or one definite-length element under the recursive grammar within both budgets; terminates within bounds |
| `Ber.ReadTag` | internal/ldapserver/codec_ber.go:220-246 | accepts exactly the identifier octets the grammar accepts, and finds their end |
| `Ber.ReadLength` | internal/ldapserver/codec_ber.go:247-277 | finds the length and its end; refuses only malformed lengths and lengths beyond the buffer |
| `Ber.NextState` | internal/ldapserver/codec_ber.go:278-298 | taking an element keeps the stack within the grammar's nesting and the verdict unchanged |
| `Ber.StuckRejects` | internal/ldapserver/codec_ber.go:203-299 | whenever the scan stops with an error the grammar rejects the buffer |
| `Ber.PopAccepts` | internal/ldapserver/codec_ber.go:207-219 | leaving a finished constructed value does not change the verdict |
| `BerTrees.ElementExactly` | internal/ldapserver/codec_ber.go:203-299 | octets are one element within both budgets if and only if they are written from a tree of that depth and size: identifier octets by base 128, lengths in the short form or in up to eight octets by base 256 |
| `Frames.FrameExactly` | internal/ldapserver/codec_ber.go:136-196 | a frame is read if and only if the stream begins with it, so no frame begins another one |
| `BerTrees.FrameIsWritten` | internal/ldapserver/codec_ber.go:136-196 | a frame is a SEQUENCE identifier, the size of the contents written by division and remainder by 256, and the contents, of any size up to the limit |
| `BerTrees.FrameIsRead` | internal/ldapserver/codec_ber.go:136-196 | such a frame is read whole from every stream that begins with it |
| `BerTrees.AnswersExactly` | internal/ldapserver/codec_ber.go:136-196 | each answer of the reader, by what the stream begins with: nothing, a header that announces too much, a whole frame, or octets that no frame begins with |
| `Frames.Reader.ReadFull` | internal/ldapserver/codec_ber.go:138-149 | fills the buffer from the stream, all of it or as far as the stream goes |
| `Frames.Reader.ReadHeader` | internal/ldapserver/codec_ber.go:136-178 | reads at most ten octets and yields the announced length, or the error the specification gives |
| `Frames.Reader.ReadFrame` | internal/ldapserver/codec_ber.go:136-196 | yields exactly the first SEQUENCE and stops behind it; an oversized one is refused before its contents are read |
| `Frames.MessageExactly` | internal/ldapserver/codec_ber.go:109-132 | a message is received if and only if the stream begins with it and it passes all three limits |
| `BerTrees.MessageIsWritten` | internal/ldapserver/codec_ber.go:109-132 | a message is received if and only if it is written from a SEQUENCE tree within all three limits |
| `Frames.Reader.ReadMessage` | internal/ldapserver/codec_ber.go:109-132 | framing and the scan of the elements together receive exactly that message |
| `Frames.MessagesReceived` | internal/ldapserver/conn.go:86-137 | messages written back to back are received as they are, in order, before whatever follows |
| `Frames.MessagesAreSent` | internal/ldapserver/conn.go:86-137 | what is received are consecutive well-formed pieces of the stream, up to the first failure |
| `Frames.Reader.ReadAll` | internal/ldapserver/conn.go:86-137 | the read loop receives exactly those messages and ends with that failure |
| `Codec.IntRoundTrip` | internal/ldapserver/codec_ber.go:359-382 | every number of the protocol's range is read back |
| `Codec.FilterRoundTrip` | internal/ldapserver/codec_ber_encode.go:184-262 | an encodable filter is read back as itself if every leaf names an attribute, and is refused otherwise |
| `Codec.EncodableExactly` | internal/ldapserver/codec_ber_encode.go:184-262 | a filter is encodable if and only if it is within the depth limit and every substring node has a run |
| `Codec.DecodedFilter` | internal/ldapserver/codec_ber_decode.go:342-404 | a decoded filter names its attributes, and is encodable again if and only if it is within the depth limit |
| `Codec.DeepFilterIsOnlyReadable` | internal/ldapserver/codec_ber_decode.go:342-404 | a filter that is read but cannot be written |
| `Codec.SubstringsRoundTrip` | internal/ldapserver/codec_ber_encode.go:240-262 | substring runs come back in their places |
| `Codec.DecodeSubstringFilter` | internal/ldapserver/codec_ber_decode.go:428-475 | the loop with its two flags decides and yields what the recursive reading of the runs does |
| `Codec.NotsEncodable` | internal/ldapserver/codec_ber_encode.go:184-200 | exactly 256 levels of nesting can be written |
| `Protocol.FilterExactly` | internal/ldapserver/codec_ber_decode.go:342-404 | a packet is decoded as a filter if and only if it is that filter by the tags of RFC 4511, leaves with an attribute name, substring runs in their places |
| `Protocol.ExtensibleExactly` | internal/ldapserver/codec_ber_decode.go:342-404 | a filter is called unsupported if and only if the first part that cannot be read is an extensible match |
| `Messages.AttributeRoundTrip` | internal/ldapserver/codec_ber_decode.go:518-544 | an attribute is encodable if and only if it has a name, and then read back |
| `Messages.ChangeRoundTrip` | internal/ldapserver/codec_ber_decode.go:594-631 | a modify change is read back |
| `Messages.ControlsRoundTrip` | internal/ldapserver/codec_ber_decode.go:789-832 | encodable controls are read back |
| `Messages.SearchRoundTrip` | internal/ldapserver/codec_ber_decode.go:267-324 | an encodable search is read back, or refused for an empty attribute name |
| `Messages.OpRoundTrip` | internal/ldapserver/codec_ber_decode.go:129-172 | every encodable request operation is read back as itself exactly when its attribute descriptions are not empty |
| `Messages.MessageRoundTrip` | internal/ldapserver/codec_ber_decode.go:96-127 | every encodable request message with its controls is read back as itself exactly when its attribute descriptions are not empty |
| `Protocol.ControlExactly` | internal/ldapserver/codec_ber_decode.go:789-832 | a packet is decoded as a control if and only if it holds the OID, a criticality of which the last one counts, and a value of which the last one that is not empty counts |
| `Protocol.OperationExactly` | internal/ldapserver/codec_ber_decode.go:129-172 | a packet is decoded as a request operation if and only if it is that operation by the tags of RFC 4511 |
| `Protocol.MessageExactly` | internal/ldapserver/codec_ber_decode.go:96-127 | a packet is decoded as a message if and only if it is that message of the protocol |
| `Protocol.UnsupportedExactly` | internal/ldapserver/codec_ber_decode.go:96-172 | a message is called unsupported if and only if its envelope is right and its operation is another one, a bind that is not simple, or a search with an extensible match |
| `Protocol.WrittenMessage` | internal/ldapserver/codec_ber_encode.go:26-117 | what is written for a message is that message by the protocol's definition, unless an attribute description is empty, with true as 255 and every number as short as it can be |
| `Messages.UnnamedCompareIsRefused` | internal/ldapserver/codec_ber_encode.go:26-117 | a message that is written but cannot be read |
| `Messages.MessageEncodable` | internal/ldapserver/codec_ber_encode.go:26-117 | what the encoder demands of a message, both ways |
| `Messages.DecodedMessage` | internal/ldapserver/codec_ber_decode.go:96-127 | reading, writing and reading again gives the same message, except for the two things only the reader accepts |
| `Messages.UnnamedExtendedIsOnlyReadable` | internal/ldapserver/codec_ber_decode.go:129-172 | a message that is read but cannot be written |
| `Acis.UnquoteEscaped` | internal/config/acl.go:370-389 | an escaped text behind its quote is lexed back, with carriage returns turned to line feeds |
| `Acis.LexQString` | internal/ldapserver/aci_parse_a.go:367-412 | the loop accepts exactly terminated quoted strings with valid escapes and UTF-8, and stops behind the closing quote |
| `Acis.EscapeAt` | internal/ldapserver/aci_parse_a.go:367-412 | an escape yields the character it stands for and the place behind it, or no quoted text can start there |
| `Acis.LexText` | internal/ldapserver/aci_parse_a.go:414-458 | the lexer's loop yields the tokens of the recursive lexing |
| `Acis.ParseACIText` | internal/ldapserver/aci_parse_a.go:497-564 | the clause loop accepts each clause once, in any order, and ends only with all three |
| `Acis.DnRoundTrip` | internal/config/acl.go:370-389 | a DN in ACI text is read back if and only if it holds no carriage return and no value ends in a tab |
| `Acis.ReturnIsLost` | internal/config/acl.go:370-389 | a DN with a carriage return that is not read back |
| `Acis.NoFourthClause` | internal/ldapserver/aci_parse_a.go:497-564 | nothing is accepted behind the three clauses |
| `AciRoundTrip.LexCompiled` | internal/config/acl.go:113-193 | the printed instruction lexes to its tokens |
| `AciRoundTrip.ListRoundTrip` | internal/ldapserver/aci_parse_a.go:587-643 | an attribute list is read back name by name with its mode |
| `AciRoundTrip.ListRead` | internal/ldapserver/aci_parse_a.go:587-643 | a printed list is accepted if and only if it has at most 64 names, each accepted; a star in a positive list stands for every attribute |
| `AciRoundTrip.PermsParsed` | internal/ldapserver/aci_parse_a.go:695-732 | the permission list is read back in order |
| `AciRoundTrip.SubjectParsed` | internal/ldapserver/aci_parse_a.go:734-787 | the subject is read back as its keyword or as the DN its URL holds |
| `AciRoundTrip.CompiledRoundTrip` | internal/config/acl.go:113-193 | parsing the compiled text of any in-limit instruction gives back its target, attribute clause, name, permissions and subject, if and only if its DNs survive |
| `AciRoundTrip.CompiledReturnIsLost` | internal/config/acl.go:113-193 | an in-limit instruction that is not read back |
| `AciGrammar.WrittenRoundTrip` | internal/ldapserver/aci_parse_a.go:497-787 | any instruction within the limits, allow or deny, with any attribute clause or none, is read back as itself, if and only if its DNs survive |
| `AciGrammar.LexExactly` | internal/ldapserver/aci_parse_a.go:367-458 | a text is lexed to tokens if and only if it spells them: white space anywhere between, quoted characters as they are, behind a backslash or in hexadecimal |
| `AciGrammar.ListExactly` | internal/ldapserver/aci_parse_a.go:587-643 | an attribute list is read if and only if its parts between double bars, once trimmed, are each a star or a descriptor or OID of the schema |
| `AciGrammar.ParseExactly` | internal/ldapserver/aci_parse_a.go:497-787 | a text is read as an instruction if and only if it has at most 65536 octets and spells clauses, each kind once and in any order, that derive that instruction: keywords in any case, allow or deny, at most 16 permissions |
| `TargetAttr.AciAttrIn` | internal/ldapserver/aci_parse_a.go:226-265 | the loop decides whether some name of the list covers the description, options as sets |
| `TargetAttr.NameParts` | internal/ldapserver/aci_parse_a.go:226-244 | base and options of a name are what stands before, between and behind its semicolons |
| `TargetAttr.CoversByParts` | internal/ldapserver/aci_parse_a.go:226-265 | a name covers a description if and only if it is a star, or has the same base and no option, in any case, that is empty or not there |
| `TargetAttr.DedupCovers` | internal/config/acl.go:312-323 | dropping names spelled alike changes no coverage |
| `TargetAttr.KeepAllowed` | internal/config/acl.go:257-279 | refuses exactly when a deny name is narrower than an allow name of its type, else keeps the undenied ones |
| `TargetAttr.KeptMeans` | internal/config/acl.go:257-279 | the kept names cover exactly what is allowed and not denied |
| `TargetAttr.CompileTargetAttr` | internal/config/acl.go:211-280 | the loops compile the lists to the clause, or to the error, whose meaning is proved |
| `TargetAttr.ClauseMeaning` | internal/config/acl.go:211-280 | whenever the lists compile, the clause covers a description if and only if some allow name or allow-all covers it and no deny name does |
| `TargetAttr.PrintedClauseMeaning` | internal/ldapserver/aci_parse_a.go:191-201 | the same for the clause after printing and parsing it |
| `TargetAttr.CompilesExactly` | internal/config/acl.go:211-280 | lists compile if and only if they have at most 64 names, no star is denied and, when both restrict, no allow name is denied in part and something is left; and which error each other case gives |
| `Matching.CollapseIdentity` | internal/ldapserver/matching.go:289-309 | two values collapse to one form if and only if they have the same words; collapsing is idempotent |
| `Matching.CollapseSpaces` | internal/ldapserver/matching.go:289-309 | the loop computes the form so characterized |
| `Matching.IndexIsFirst` | internal/ldapserver/matching.go:182-204 | the search finds an occurrence whenever there is one, and the leftmost |
| `Matching.LeftmostIsEnough` | internal/ldapserver/matching.go:182-204 | taking the leftmost occurrence loses no split |
| `Matching.Substrings` | internal/ldapserver/matching.go:182-204 | true if and only if the normalized value splits into initial, gaps, the any parts in order, and final, without overlap |
| `Matching.EqualDNsShareKey` | internal/ldapserver/matching.go:161-175 | DN values match if and only if both parse and share a store key |
| `LdifText.WriteFolded` | internal/directory/ldif.go:262-281 | the loop's text is the folded line that unfolding undoes |
| `LdifText.UnfoldLDIF` | internal/directory/ldif.go:332-342 | the loop computes the unfolding |
| `LdifText.UnfoldUndoesFold` | internal/directory/ldif.go:262-281 | unfolding gives back a folded line of any length |
| `LdifText.LineRoundTrip` | internal/directory/ldif.go:344-359 | a name and value line is read back if and only if the value is encoded or holds no `:: `; otherwise what is read is no valid name |
| `LdifShape.ClearExactly` | internal/directory/ldif.go:228-260 | a value is written in the clear if and only if it is a safe string of RFC 2849 that does not end in a space |
| `LdifShape.DocumentNarrow` | internal/directory/ldif.go:64-281 | no line of an export is longer than 76 octets |
| `LdifShape.DocumentAscii` | internal/directory/ldif.go:64-281 | with attribute names in ASCII everything that is written is ASCII, whatever the DNs and values |
| `Ldif.GroupedFacts` | internal/directory/ldif.go:195-219 | the export lists each name once, lowercase, and under it exactly the kept values of that name, names and values sorted |
| `Ldif.LessEqExactly` | internal/directory/ldif.go:214-218 | a text is sorted before another one if it begins that one, or has the smaller byte where they first differ |
| `Ldif.CollectAttrs` | internal/directory/ldif.go:195-219 | the loop with its index from name to place computes the grouping |
| `Ldif.Encoder.WriteRaw` | internal/directory/ldif.go:129-145 | writes the text within the byte limit, or nothing |
| `Ldif.Encoder.EnsureHeader` | internal/directory/ldif.go:110-127 | the header goes out once, when it fits |
| `Ldif.Encoder.WriteEntry` | internal/directory/ldif.go:64-89 | an entry goes out whole if and only if the encoder is open and the document with it stays within both limits; otherwise not at all |
| `Ldif.Encoder.Close` | internal/directory/ldif.go:92-108 | the trailer goes out once, if and only if the finished document stays within the byte limit |
| `LdifReader.ReadLDIF` | internal/directory/ldif.go:285-330 | the loop over lines computes the recursive reading |
| `LdifReader.DocumentLines` | internal/directory/ldif.go:285-330 | what any export is read as, entry by entry, including what is lost |
| `LdifReader.EntryReadBack` | internal/directory/ldif.go:178-188 | an entry is read back if and only if its DN and values survive and none is called version |
| `LdifReader.ExportRoundTrip` | internal/directory/ldif.go:178-359 | reading an export gives back every entry, values grouped and sorted, if and only if no attribute is called version and no clear DN or value holds `:: ` |
| `LdifReader.ClearDnIsLost` | internal/directory/ldif.go:344-359 | an export whose DN holds a double colon and a space is not read back |
| `LdifReader.VersionIsLost` | internal/directory/ldif.go:285-330 | an export with an attribute called version is not read back |
| `Cycles.Search.Walk` | internal/config/group.go:107-136 | reports only real cycles; otherwise everything below the node is finished in an order that proves it acyclic |
| `Cycles.Search.DetectCycles` | internal/config/group.go:107-136 | reports an error if and only if the membership graph has a directed cycle |
| `Cycles.NewCycleExactly` | internal/app/groups.go:163-190 | new members close a cycle if and only if one of them leads back to the group |
| `Cycles.Groups.CycleFrom` | internal/app/groups.go:192-226 | the recursive search over the shared seen set finds the group exactly when it can be reached |
| `Cycles.Groups.DetectCycle` | internal/app/groups.go:163-190 | reports exactly whether an incoming group member leads back to the group |
| `Cycles.Groups.AddMembers` | internal/app/groups.go:131-161 | accepted if and only if the group exists and the graph stays acyclic; refused ones change nothing |
| `Cycles.Groups.ReplaceMembers` | internal/app/groups.go:111-127 | the same, although the check searches the graph with the old members |
| `Cycles.Groups.RemoveMembers` | internal/app/groups.go:131-161 | removal keeps the graph acyclic |
| `Cycles.Groups.Create` | internal/app/groups.go:43-77 | the graph stays acyclic if and only if no member leads back to the new id, which is not checked |
| `Cycles.CreateClosesCycle` | internal/app/groups.go:43-77 | an acyclic group graph and a new group that closes a cycle |
| `Cycles.ChecksDoNotCompose` | internal/app/groups.go:131-161 | two changes of different groups, each acceptable alone, that close a cycle together: why the mutation lease must come before the check |
| `KeyedLocks.Coordinator.CountIn` | internal/app/coord.go:29-45 | a caller joins its key's lock object, the existing one when there is one |
| `KeyedLocks.Coordinator.TakeLock` | internal/app/coord.go:29-45 | a waiting caller gets a free lock object; the invariant is kept |
| `KeyedLocks.Coordinator.DropLock` | internal/app/coord.go:45-55 | the holder frees the lock object; the invariant is kept |
| `KeyedLocks.Coordinator.CountOut` | internal/app/coord.go:45-55 | a leaving caller counts out, and the last one takes the map entry with it |
| `KeyedLocks.StepKeeps` | internal/app/coord.go:29-55 | every step, taken in any state the invariant allows, keeps the invariant |
| `KeyedLocks.EveryRun` | internal/app/coord.go:29-55 | after every interleaving: at most one holder a key, one lock object a key, and the map entry exists, with the exact count, if and only if some caller waits, holds or leaves |
| `KeyedLocks.Coordinator.Run` | internal/app/coord.go:29-55 | running any schedule ends in the state that its enabled steps lead to, one after the other |
| `KeyedLocks.Coordinator.MutualExclusion` | internal/app/coord.go:29-55 | at most one caller holds a key |
| `KeyedLocks.Coordinator.OneLockPerKey` | internal/app/coord.go:29-55 | two callers share a lock object if and only if they share a key |
| `KeyedLocks.Coordinator.EntryWhileReferenced` | internal/app/coord.go:29-55 | the map entry exists if and only if some caller waits, holds or leaves, and the count is their number |
| `KeyedLocks.Coordinator.WaiterBlockedByHolderOnly` | internal/app/coord.go:29-55 | a waiter's lock is taken if and only if some caller holds its key |
| `Leases.Lease.TryOnce` | internal/app/coord.go:62-87 | takes the lease if it is free; a cancelled call changes nothing |
| `Leases.Lease.TakeToken` | internal/app/coord.go:90-92 | a waiter gets the lease only while nobody has it |
| `Leases.Lease.StopWaiting` | internal/app/coord.go:93-94 | a cancelled waiter leaves without touching the lease |
| `Leases.Lease.CheckCancelled` | internal/app/coord.go:75-80 | a call cancelled while it took the lease gives it back, any other keeps it |
| `Leases.Lease.ReleaseOnce` | internal/app/coord.go:80-81 | the first release frees the lease, every later one does nothing, even when another caller has it |
| `Leases.StepKeeps` | internal/app/coord.go:62-96 | every step, taken in any state the invariant allows, keeps the invariant |
| `Leases.EveryRun` | internal/app/coord.go:62-96 | after every interleaving: at most one holder, the lease free if and only if no caller owns it, and the waiter count exact |
| `Leases.Lease.Run` | internal/app/coord.go:62-96 | running any schedule ends in the state that its enabled steps lead to, one after the other |
| `Leases.Lease.OneHolder` | internal/app/coord.go:62-96 | at most one caller holds the lease |
| `Leases.Lease.TokenOwned` | internal/app/coord.go:62-96 | the lease is free if and only if no caller owns it, so it is never lost |
| `Connections.Conn.Admit` | internal/ldapserver/conn.go:228-240 | busy if and only if all tokens are taken |
| `Connections.Conn.Register` | internal/ldapserver/conn.go:241-274 | a new worker keeps the subject bound at dispatch; a duplicate message ID starts none |
| `Connections.Conn.Reject` | internal/ldapserver/conn.go:242-251 | a duplicate gives its token back |
| `Connections.Conn.Bind` | internal/ldapserver/conn.go:109-115 | a bind does not affect dispatched workers |
| `Connections.Conn.Abandon` | internal/ldapserver/conn.go:284-291 | cancels exactly the worker that owns the message ID |
| `Connections.Conn.StartTLS` | internal/ldapserver/starttls.go:33-60 | passes if and only if the controls are accepted, it is enabled, without value, in the clear, and nothing is in flight |
| `Connections.Conn.Swap` | internal/ldapserver/starttls.go:89-107 | the transport is swapped once; a failed handshake closes |
| `Connections.Conn.WorkerFinishes` | internal/ldapserver/conn.go:252-261 | a finished worker leaves the registry before it gives its token back |
| `Connections.Conn.WorkerReleases` | internal/ldapserver/conn.go:252-261 | one token comes back per worker |
| `Connections.StepKeeps` | internal/ldapserver/conn.go:86-137 | every step, taken in any state the invariant allows, keeps the invariant |
| `Connections.EveryRun` | internal/ldapserver/conn.go:86-137 | after every run: live workers within the ceiling, tokens conserved, one worker per message ID, subjects as dispatched, and no worker writing between a passed StartTLS check and the swap |
| `Connections.Conn.Run` | internal/ldapserver/conn.go:86-137 | running any schedule ends in the state that its enabled steps lead to, one after the other |
| `Connections.Conn.CeilingHolds` | internal/ldapserver/conn.go:228-261 | live workers never exceed the ceiling |
| `Connections.NoWriteInBetween` | internal/ldapserver/starttls.go:55-94 | no worker writes between a passed outstanding check and the swap |
| `Searches.AndMeaning` | internal/ldapserver/op_search.go:418-487 | a conjunction is True exactly when all parts are and False exactly when one is |
| `Searches.OrMeaning` | internal/ldapserver/op_search.go:418-487 | a disjunction is False exactly when all parts are and True exactly when one is |
| `Searches.NotMeaning` | internal/ldapserver/op_search.go:445-453 | a negation is True exactly when its part is False, False when it is True, and Undefined when it is Undefined |
| `Searches.TwoValued` | internal/ldapserver/op_search.go:418-487 | when no leaf is Undefined, a filter is True exactly when it holds in two-valued logic |
| `Searches.SettledExactly` | internal/ldapserver/op_search.go:418-487 | whatever the rights, a filter is decided exactly as its decided leaves settle it |
| `Searches.FewerRights` | internal/ldapserver/op_search.go:418-487 | making leaves Undefined never flips a decided filter, not even through NOT |
| `Searches.LeafIsRequired` | internal/ldapserver/op_search.go:492-507 | a filter that is True makes the chosen equality leaf True |
| `Searches.ScanSearch` | internal/ldapserver/op_search.go:126-153 | a walk over what lies in scope returns exactly the visible matching entries, or trips the size limit exactly when there are more |
| `Searches.IndexSearch` | internal/ldapserver/op_search.go:102-125 | the same outcome from the complete postings of the chosen leaf |
| `Searches.Candidates` | internal/ldapserver/op_search.go:131-146 | the store lists exactly the entries in scope, each once; an absent base is reported |
| `Searches.ScopeMeaning` | internal/ldapserver/op_search.go:509-521 | how many RDNs below the base a scope goes: none, one, or any number |
| `Searches.AnswerMeans` | internal/ldapserver/op_search.go:95-153 | with every search right the answer holds exactly the readable entries at that distance for which the filter holds in two-valued logic |
| `Searches.SearchByScan` | internal/ldapserver/op_search.go:126-153 | on the store: an absent base is reported, otherwise exactly the visible matching entries, or the limit |
| `Searches.SearchByIndex` | internal/ldapserver/op_search.go:102-125 | the index path with its base lookup ends the same way, given complete postings |
| `Searches.OutcomesAgree` | internal/ldapserver/op_search.go:102-153 | the two paths return the same entries when no limit trips, and a limit trips in both or in neither |
| `Indexes.FieldsOfWords` | internal/ldapserver/store/index.go:169-188 | splitting at white space refines splitting at spaces |
| `Indexes.MatchingShareKey` | internal/ldapserver/store/index.go:169-188 | values that the matching rule equates have the same posting key |
| `Indexes.FilterValues` | internal/ldapserver/attrdesc.go:92-105 | the loop selects the values of every attribute of the type |
| `Indexes.MatchEquality` | internal/ldapserver/filter_eval.go:126-135 | the loop decides whether a selected value matches by the rule of the indexed text attributes |
| `Indexes.MatchSelected` | internal/ldapserver/filter_eval.go:126-135 | it does if and only if some attribute of the type holds a matching value |
| `Indexes.IndexedStore.AddPostings` | internal/ldapserver/store/index.go:299-348 | the loops add exactly the postings that the entry calls for |
| `Indexes.IndexedStore.RemovePostings` | internal/ldapserver/store/index.go:307-348 | the loops remove exactly those |
| `Indexes.IndexedStore.Replace` | internal/ldapserver/store/index.go:316-321 | swapping postings keeps the index in agreement with the entries |
| `Indexes.IndexedStore.Lookup` | internal/ldapserver/store/index.go:357-390 | finds exactly the ids with a posting for the value, each once |
| `Indexes.IndexedStore.Walk` | internal/ldapserver/store/search_walk.go:78-111 | visits exactly the entries with a posting for the leaf, each once |
| `Indexes.WalkIsComplete` | internal/ldapserver/store/search_walk.go:78-111 | that walk misses no entry of which an indexed equality, evaluated by its rule or Undefined without the search right, is True |
| `Indexes.Search` | internal/ldapserver/op_search.go:102-125 | on a store with its index: the index path reports an absent base and otherwise ends as the scan does |
| `Passwords.SameByteSet` | internal/ldapserver/password.go:612-628 | true if and only if both lists hold the same values with the same multiplicities |
| `Passwords.Account.ApplyAdd` | internal/ldapserver/password.go:380-411 | values are checked for length and hashed, or the add is refused unchanged |
| `Passwords.Account.ApplyModify` | internal/ldapserver/password.go:419-486 | the new passwords, history and stamps for every list of values, the expiration time dropped; a refused modification changes nothing |
| `Passwords.Account.HashChecked` | internal/ldapserver/password.go:447-461 | the first failing plaintext decides; otherwise every value is hashed or passed through |
| `Passwords.InRecent` | internal/ldapserver/password.go:491-503 | a candidate is refused for reuse if and only if it is one of the last h + 1 committed passwords |
| `Passwords.Replace` | internal/ldapserver/password.go:419-503 | a single plaintext replacement is accepted if and only if it is long enough and not among the last h + 1, and the history is the h most recent earlier ones |
| `Passwords.AcceptedDistinct` | internal/ldapserver/password.go:419-503 | however a run of replacements goes on, any h + 2 consecutive committed passwords stay pairwise distinct |
| `Passwords.RunReplacements` | internal/ldapserver/password.go:419-503 | a run of replacements commits exactly the texts that are long enough and not among the last h + 1 committed, in order, and any h + 2 consecutive ones are pairwise distinct |
| `RateLimits.Window.Allow` | internal/app/ratelimit.go:39-79 | one call, whatever time it has read: its decision and the whole new state are those of the step relation, and never more than 4096 keys |
| `RateLimits.Window.Sweep` | internal/app/ratelimit.go:54-62 | forgets exactly the keys whose last hit is too old |
| `RateLimits.Window.Expired` | internal/app/ratelimit.go:66-70 | the loop trims the hits at the front that are too old, up to the first that is not |
| `RateLimits.Window.AllowAll` | internal/app/ratelimit.go:39-79 | calls in any order go through the states of the step relation, and are granted as it says |
| `RateLimits.Budgets` | internal/app/ratelimit.go:85-96 | which budget a key draws on, over a minute or an hour, by what it begins with |
| `RateLimits.FullExactly` | internal/app/ratelimit.go:51-65 | a call is refused for want of room if and only if 4096 other keys are left, after a sweep when one is due |
| `RateLimits.CallKeeps` | internal/app/ratelimit.go:39-79 | a call in turn keeps track of all that was ever granted, within the limits, and is decided as by a limiter that never forgets |
| `RateLimits.DecidesInTurn` | internal/app/ratelimit.go:39-79 | when calls enter in the order of their times, every decision is that of a limiter that never forgets a hit, except that a new key is refused when the map is still full after the sweep |
| `RateLimits.NeverOverLimit` | internal/app/ratelimit.go:39-79 | when calls enter in the order of their times, no key is granted more than its limit in any window of its length |
| `RateLimits.SweepExactly` | internal/app/ratelimit.go:54-62 | sweeping, at any time, forgets no key with a live hit if and only if the last hit is the latest |
| `RateLimits.TrimExactly` | internal/app/ratelimit.go:66-70 | trimming, at any time, leaves exactly the live hits if and only if the hits are in order |
| `RateLimits.OvertakingExceedsLimit` | internal/app/ratelimit.go:49-62 | calls that overtake one another, after which a key has been granted three hits in a window that allows two |
| `RateLimits.OvertakingRefusesEarly` | internal/app/ratelimit.go:49-78 | calls that overtake one another, after which a call is refused that a limiter that never forgets admits |
| `RateLimits.WindowHoldsLimit` | internal/app/ratelimit.go:66-78 | hits admitted by the trailing check are spaced so that no window holds more than the limit |

## Left out

- Runs.MoveCommit: for moves whose redirected values survive (`SafeMove`), as in referint's order the other moves end differently (`Samples.OrderMatters`); in the server's order `Runs.MoveCommitExact` covers every move.
- Runs.CommitConverges: stated one way, because `Clean` asks that every value survive and be spelled as configured, while a lost or overlooked reference may be one of several that lead to the same entry; `Runs.CommitExact` is exact.
- Runs.RunConverges: the same, for each request of the run; `Runs.RunExact` is exact.
- Runs.DirectModify: the condition on the values is for direct membership; for nested membership `Runs.ModifyCommitExact` states it on what the overlooked entries belong to.
- Runs.DenialHidesTree: access decisions are given and do not read the directory.
- Runs.DeniedModifyDN: the same; only the entry-write right counts as denied, since the other rights are checked behind the lookups.
- References.MoveLeadsReferences: for moves whose redirected values survive (`SafeMove`); what the others are read back as is `HashValues.FollowsExactly`.
- LdifShape.DocumentAscii: attribute names are taken to be ASCII, as the schema has them.
- TargetAttr.CompilesExactly: names without empty options, which the compiler refuses before (internal/config/acl.go:167-178).
- Orders.MovedEntryAgrees: exact for direct membership; for nested membership `Orders.MovedEntryMemberOf` gives both outcomes.
- Convergence.MoveConvergesExactly: takes the rename's target to be free; a rename to the entry's own name is `Runs.TouchCommit`.
- Convergence.MoveOrderIndependent: equal memberOf sets are stated for moves whose values survive, as they can differ otherwise (`Samples.OrderMatters`).
- Ber.ReadLength: may refuse a well-formed length that exceeds the buffer, as the code does; `Ber.ScanTLVs` is exact.
- MemberOf.Plugin.AfterWrite: the order in which memberOf values are written is not modelled, only their set.
- Stores.Tx.Rename: names have one spelling, so respelling an entry in place is not modelled.
- Servers.Server.Add: requests arrive with parsed names, so the answers to unparseable DNs are not modelled.
- Servers.Server.Modify: the same.
- Servers.Server.Delete: the same.
- Servers.Server.ModifyDN: the same (internal/ldapserver/op_write.go:514-527).
- Frames.Reader.ReadFrame: lengths are unbounded numbers, so the 64-bit sum of header and content length is taken not to wrap; of stream failures only the end of the stream is modelled.
- Frames.Reader.ReadMessage: stops at the scanned octets; what the packets mean is `Codec` and `Messages`.
- Frames.Reader.ReadAll: the loop also ends on unbind, a refused bind and a failed StartTLS, which are not modelled there.
- Ldif.Encoder.WriteRaw: writer errors and short writes are not modelled.
- Passwords.Replace: covers single plaintext values with a history count of at least one; lists, removals and hashed values are `Passwords.Account.ApplyModify`.
- Passwords.RunReplacements: the same.
- Connections.Conn.Abandon: cancellation is recorded but a cancelled worker's later steps are not constrained.
- Cycles.Groups.AddMembers: revision checks and the repository refusing members it cannot resolve are not modelled.
- Cycles.Groups.ReplaceMembers: the same.
- Cycles.Groups.Create: the repository refusing members it cannot resolve is not modelled.
- Searches.SearchByIndex: entries are values; projection, per-entry access checks other than readability, and deadlines are not modelled. That the postings are complete is shown in `Indexes.Search`.
- Searches.ScanSearch: what lies in scope is given there, and comes from the store in `Searches.SearchByScan`; time limits are not modelled.
- Searches.IndexSearch: complete postings are given there, and come from the index in `Indexes.Search`; time limits are not modelled.
- Indexes.Search: the evaluation of other leaves than an indexed equality is given; ids, the store's buckets and the byte form of posting keys are values, and the DN-valued index families, which the search does not walk, are not modelled.
- Clearing of packet buffers: it changes no message.
- The persistent store's files and buckets, and the reset gate: neither is part of this model; the in-memory store is, and of the persistent one the equality index.
- Referint's own fixup (internal/ldapserver/refint.go:144-173): a sweep with the repairs already modelled.
- Respelled and case-only renames, and entries and suffixes whose names have values that end in a tab: directory names have one spelling from `Names` on. Member values may be spelled in any way.
- The access control evaluator, the schema check and the matching rules inside the write handlers: parameters, so their own decisions are not modelled there.
- Decoding of response messages: the server only writes them.
- Time limits, paging, bind lockout, idle timeouts and shutdown draining.
- Sockets, TLS, deadlines, logging, metrics, contexts and cancellation; cryptography, base64, regular expressions, the attribute tables and Unicode case folding.
- HTTP handlers, the user interface, configuration loading and bootstrapping.
