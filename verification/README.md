# Asset management: verified models

Dafny models of the hardest parts of an asset management back end, with proofs of what they keep. The models
follow the code, branch by branch; where the code and its documentation disagree they follow the code and say so.

`dafny verify dfyconfig.toml` checks everything.

## What is modelled

- **Roles** (`Hierarchy`, `RbacTables`, `SeparationOfDuties`, `LineageClashes`, `SodTriggers`, `EffectivePermissions`): parent columns
  and the no-cycle triggers, role lineage, the two separation-of-duties triggers, the permission view. Tables are
  finite maps and each accepted write is one serial step. The model follows static separation of duties with role
  hierarchies of ANSI INCITS 359-2004, section 5.3. The main result is that no run of guarded writes ever gives a
  user both sides of a static rule. It is a property of users: a role's own lineage may clash, but then nobody holds it.
- **Retiring and restoring a role** (`RoleRetirement`, `RoleRestoration`, `RoleStores`): the migration's statements over the
  tables and the audit log, what they do to permissions, and the round trip.
- **Image uploads and template versions** (`AssetUploads`, `TemplateVersions`): any number of clients, one step at a
  time. Digests stand for contents and drawn ids are fresh. Locked sections of template transactions may interleave
  with sections of other types, and `activate` reads its row before it has the lock.
- **Email text** (`Strings`, `RichText`, `EmailText`, `LinkTokens`, `LinkConversion`, `LinkMigration`): the text and
  document conversions, the token matcher, the link rewriter, and the version table migrated up and down.
- **Inventory acts** (`InventoryActs`): the split of one act per inventory into one per cost centre, and the merge.
- **Cost centre placements** (`Placements`): placement rows that are closed and replaced, as-of queries, the cycle check.
- **Requests and loans** (`Loans`, `AssetRequests`, `Lending`, `LendingRuns`, `LendingGuards`, `Reservations`,
  `AssetsOnLoan`, `Extensions`, `LendingDesk`): one state machine of requests, loans and assets with the listeners that
  tie them. `Lending` holds the steps, `LendingGuards` says in the columns of the rows when each may happen, and
  `LendingDesk` holds the transactions that loop over rows, each proved to be its step or to change nothing. What other
  tables say (assets held elsewhere, write-offs, whether centres and people are in order) comes with the step.
- **Wire formats** (`Csv`, `EventStream`): CSV cells against a reader of RFC 4180, section 2, and the event stream
  against a client of the WHATWG HTML Living Standard, section 9.2.6.

A class stands for the tables a service or migration updates in place; its methods run the statements and are proved
against functions on values, about which the lemmas speak.

## What turned out not to hold

Each of these has a concrete counterexample and an exact condition among the lemmas.

- A new static rule is stored without looking at who holds its roles (`NewRuleSeparation`, `NewRuleCanBreakSeparation`).
- A reparenting may leave a descendant role whose own lineage clashes (`LineagesStayCleanExactlyWhen`,
  `DescendantLineageCanClash`); nobody holds such a role (`ClashingRolesStayUnheld`).
- Retiring a soft-deleted role can give its heirs permissions they did not have (`PermissionsKeptExactlyWhen`,
  `SoftDeletedRoleGivesItsHeir`). The retired role is seeded as a system role and `RolesService.remove`
  (src/modules/roles/services/roles.service.ts:268-283) refuses system roles and roles with active children, so only a
  direct write to the table can have soft-deleted it.
- A retirement cannot always be undone: the restoration fires the inheritance trigger on lineages that stood there
  before. It goes through exactly when no live heir's lineage clashes, nor the role's own apart from the rules about it
  (`RestorationPassesExactlyWhen`, `RetireThenRestore`). A role created under the retired one, with a static rule between
  the two, is a case where it is refused (`RuledHeirBlocksRestoration`).
- The link migration does not come back to the same table when a newer inactive version has the same type, subject and
  conversion as the active one: the newer one is active afterwards (`DownIsExactExactlyWhen`). Two versions of the
  invitation template, the older one active, are such a table (`InvitationsComeBackChanged`).
- The placement check looks 64 levels up and accepts a cycle closed above that (`PassedCheckIsEnoughExactlyWhen`,
  `DeepCycleIsAccepted`).
- The act split drops the request of a centre-scoped inventory that is open or has no scope id
  (`RequestLandsExactlyWhen`, `RequestWithoutCenterIsDropped`). Adding the scope columns gave the rows of that time the
  scope COST_CENTER and no id (src/database/migrations/1767225609000-phase6-inventories-depreciation.ts:11-12).
- The act split and its reverse lose columns: the signer of an inventory of another scope, a block beside a request, and
  whatever an inventory without an act held (`ColumnsRecoveredExactlyWhen`, `SignerOfWholeActIsLost`).
- The request endpoint is documented to accept new requests only, but the transition table also lets the owner accept a
  returned one; the newly named assets are added to those already held (`AcceptedAssetsAreTheNamedOnesExactlyWhen`,
  `ReturnedRequestCanBeAccepted`).
- Creating a loan looks at open loans and write-offs but not at reservations, so a direct loan can take an asset that an
  accepted request holds (`StepKeepsApartExactlyWhen`, `DirectLoanTakesAReservedAsset`).
- Approving an inventory reconciliation marks a missing asset lost even while it is out on loan. The loan can then
  never receive that asset nor close (`RunIsExactExactlyWhen`, `StruckLoanNeverCloses`, `ReconciliationStrandsALoan`).
- A closed loan is not quite final: turning down an extension looks at no status, so one still pending can be turned down
  after the loan closed (`ClosedLoansAreFinal`, `ClosedLoanCanChange`).
- A sequence number of 10^18 or more is sent as an event id and ignored when the client reconnects
  (`ReconnectResumesExactlyWhen`, `LargeIdDoesNotResume`).

## Model

| member | source | states |
|---|---|---|
| Hierarchy.CheckRoleHierarchyNoCycle | src/database/migrations/1767225601000-rbac-extended.ts:41-62 | on an acyclic table the trigger accepts exactly the parents that leave the parent graph acyclic, although its walk reads the old parent |
| Hierarchy.CheckTreeNoCycle | src/database/migrations/1767225605000-phase2-structure.ts:27-57 | the same for the organizational-unit trigger, and so for the category trigger with the same body: accepted exactly when the change closes no cycle |
| Hierarchy.WalkAvoids | src/database/migrations/1767225601000-rbac-extended.ts:49-55 | the shared WHILE loop ends on every acyclic table and says whether the chain avoids the changed row |
| Hierarchy.AcyclicAfterChange | src/database/migrations/1767225601000-rbac-extended.ts:46-57 | a parent change keeps an acyclic column acyclic if and only if the new parent does not reach the row |
| Hierarchy.WalkIsShort | src/database/migrations/1767225601000-rbac-extended.ts:50-55 | an ancestor chain of an acyclic table is no longer than the table has rows |
| Hierarchy.RunsStayAcyclic | src/database/migrations/1767225601000-rbac-extended.ts:60-62 | no sequence of accepted inserts, reparentings and deletes ever produces a cycle |
| RbacTables.RoleLineage | src/database/migrations/1767225750000-rbac-inheritance-hardening.ts:62-76 | the recursive query returns exactly the roles on a path of live parents from a live start |
| RbacTables.LineageIsTransitive | src/database/migrations/1767225750000-rbac-inheritance-hardening.ts:65-73 | a member's lineage lies inside the lineage it was met in |
| RbacTables.UpdateParents | src/database/migrations/1767226010000-custodian-retirement-loan-cancel-and-surplus-center.ts:126-130 | a multi-row parent update is accepted exactly when no row lies above the new parent, whatever the row order, and then leaves the column acyclic |
| SodTriggers.AssignmentLineages | src/database/migrations/1767225750000-rbac-inheritance-hardening.ts:115-119 | the lateral join holds, for every assignment row, its role's lineage |
| SodTriggers.CheckSodViolation | src/database/migrations/1767225750000-rbac-inheritance-hardening.ts:91-132 | the evaluated conflict query refuses exactly the conflicting assignments of the specification |
| SodTriggers.CheckRoleInheritanceSod | src/database/migrations/1767225750000-rbac-inheritance-hardening.ts:136-181 | both evaluated checks together pass exactly the role rows of the specification |
| SeparationOfDuties.AssignmentTriggerIsExact | src/database/migrations/1767225750000-rbac-inheritance-hardening.ts:97-131 | from a separated state an assignment is refused if and only if writing it would give its user both sides of a static rule |
| SeparationOfDuties.HolderCheckIsExact | src/database/migrations/1767225750000-rbac-inheritance-hardening.ts:158-177 | from a separated state a reparenting leaves every user separated if and only if check 2 finds no holder with both sides |
| SeparationOfDuties.ReparentedLineage | src/database/migrations/1767225750000-rbac-inheritance-hardening.ts:143-188 | what a lineage gains from a reparenting comes only through the reparented role's own lineage |
| SeparationOfDuties.ReparentedUser | src/database/migrations/1767225750000-rbac-inheritance-hardening.ts:158-175 | a user who gains an effective role by a reparenting holds the reparented role, and gains it through that role's lineage |
| SeparationOfDuties.ReparentKeepsSeparation | src/database/migrations/1767225750000-rbac-inheritance-hardening.ts:184-188 | a reparenting both triggers pass leaves every user separated |
| SeparationOfDuties.SoftDeleteKeepsSeparation | src/database/migrations/1767225750000-rbac-inheritance-hardening.ts:66-72 | soft-deleting a role leaves every user separated |
| SeparationOfDuties.StepKeepsStructure | src/database/migrations/1767225601000-rbac-extended.ts:41-62 | every allowed write keeps foreign keys and acyclicity |
| SeparationOfDuties.InsertAllowedExactlyWhen | src/database/migrations/1767225750000-rbac-inheritance-hardening.ts:136-181 | a new role under a parent is refused, its keys being in order, exactly when its own lineage holds both sides of a static rule |
| SeparationOfDuties.OtherWritesAllowedExactlyWhen | src/database/migrations/1767225601000-rbac-extended.ts:23-36 | the writes no trigger looks at: a role goes exactly when no role, assignment or rule refers to it, a superior must exist |
| SeparationOfDuties.RolesAfter | src/database/migrations/1767225601000-rbac-extended.ts:23-62 | what each write leaves of every row: the named row as written, each other one as it was |
| SeparationOfDuties.RunsStaySeparated | src/database/migrations/1767225750000-rbac-inheritance-hardening.ts:78-188 | in every state reachable by any sequence of guarded writes no user's effective roles hold both sides of a static rule |
| SeparationOfDuties.NewRuleSeparation | src/modules/roles/services/roles.service.ts:498-530 | adding a rule keeps users separated if and only if it is dynamic or nobody holds both of its roles; the service does not ask |
| SeparationOfDuties.NewRuleCanBreakSeparation | src/modules/roles/services/roles.service.ts:498-530 | an allowed run from the empty tables to a state in which an accepted new static rule leaves a user with both sides |
| LineageClashes.LineagesStayCleanExactlyWhen | src/database/migrations/1767225750000-rbac-inheritance-hardening.ts:147-156 | a parent change keeps every role's own lineage free of clashes if and only if no static rule has one side at or below the role and the other in the lineage of the new parent |
| LineageClashes.ClashingRolesStayUnheld | src/database/migrations/1767225750000-rbac-inheritance-hardening.ts:78-188 | in every state a run of guarded writes reaches, a role whose lineage clashes is held by nobody, directly or by inheritance |
| LineageClashes.DescendantLineageCanClash | src/database/migrations/1767225750000-rbac-inheritance-hardening.ts:147-156 | a concrete reparenting both triggers pass, after which a descendant's lineage holds both sides |
| EffectivePermissions.RoleHierarchy | src/database/migrations/1767225750000-rbac-inheritance-hardening.ts:9-42 | the recursive part of the view computes exactly the rows of the path definition: a live, unrevoked, in-window assignment and a role in its lineage |
| EffectivePermissions.UserHasPermission | src/database/migrations/1767225601000-rbac-extended.ts:284-303 | the function is true if and only if such an assignment, global or for exactly the asked type and id, has the permission in its lineage |
| EffectivePermissions.AuthorizedExactlyWhen | src/database/migrations/1767225601000-rbac-extended.ts:284-303 | the answer in the columns of the tables: an unrevoked assignment of the user with valid_from not after and valid_until after the instant, global or for the asked type and id, and a role of its lineage granted a permission of that code |
| EffectivePermissions.ViewRowExactlyWhen | src/database/migrations/1767225750000-rbac-inheritance-hardening.ts:9-42 | a row is in the view exactly when its own window holds the instant and it shows an unrevoked assignment, column by column, with a role of its lineage |
| EffectivePermissions.RowsAppearExactlyWithin | src/database/migrations/1767225750000-rbac-inheritance-hardening.ts:21-24 | an assignment brings its rows exactly at the instants of [valid_from, valid_until) while it is not revoked |
| EffectivePermissions.AnswersChangeAtBoundsOnly | src/database/migrations/1767225750000-rbac-inheritance-hardening.ts:21-24 | while no assignment of a user starts or ends, no answer about the user changes |
| EffectivePermissions.ViewRolesAreChecked | src/database/migrations/1767225750000-rbac-inheritance-hardening.ts:21-24 | at every instant the roles the view uses are among those the separation triggers inspect |
| EffectivePermissions.NoUserActsUnderBothSides | src/database/migrations/1767225750000-rbac-inheritance-hardening.ts:8-59 | after any allowed run, at no instant does the view give a user roles on both sides of a static rule |
| EffectivePermissions.RetirementKeepsAnswers | src/database/migrations/1767226010000-custodian-retirement-loan-cancel-and-surplus-center.ts:88-139 | retiring a role that is live, or whose live heirs already had all it hands down, leaves the answer of the permission function the same for every user, code, scope and instant |
| RoleRetirement.RetiredLineage | src/database/migrations/1767226010000-custodian-retirement-loan-cancel-and-surplus-center.ts:126-139 | retiring a live role removes it from every lineage and changes nothing else in any lineage |
| RoleRetirement.RetiringKeepsPermissions | src/database/migrations/1767226010000-custodian-retirement-loan-cancel-and-surplus-center.ts:116-138 | retiring a live role leaves the permission ids of every other role unchanged |
| RoleRetirement.PermissionsKeptExactlyWhen | src/database/migrations/1767226010000-custodian-retirement-loan-cancel-and-surplus-center.ts:88-139 | permissions are unchanged for every role if and only if the retired role was live or its live heirs already had all it would hand down |
| RoleRetirement.SoftDeletedRoleGivesItsHeir | src/database/migrations/1767226010000-custodian-retirement-loan-cancel-and-surplus-center.ts:116-138 | a concrete soft-deleted role whose retirement gives its heir a permission it did not have |
| RoleRetirement.RetiredIsAcyclic | src/database/migrations/1767226010000-custodian-retirement-loan-cancel-and-surplus-center.ts:126-130 | the parent graph stays acyclic |
| RoleRetirement.MovedIsSeparated | src/database/migrations/1767226010000-custodian-retirement-loan-cancel-and-surplus-center.ts:126-130 | if the inheritance trigger passes every moved heir, all users are still separated |
| RoleRetirement.RetirementIsSound | src/database/migrations/1767226010000-custodian-retirement-loan-cancel-and-surplus-center.ts:88-154 | a retirement that goes through keeps foreign keys, acyclicity and separation |
| RoleRetirement.GrantsAfterRetirement | src/database/migrations/1767226010000-custodian-retirement-loan-cancel-and-surplus-center.ts:116-138 | other roles keep their grants as they were; a new grant is at an heir, of a permission the role had, under the same conditions and granted by nobody; none of the role is left |
| RoleRetirement.RolesAfterRetirement | src/database/migrations/1767226010000-custodian-retirement-loan-cancel-and-surplus-center.ts:126-139 | heirs move to the role's own parent, subordinates to its own superior, and nothing else of any role changes |
| RoleRetirement.RestAfterRetirement | src/database/migrations/1767226010000-custodian-retirement-loan-cancel-and-surplus-center.ts:137-153 | exactly the rules about the role go, assignments stay, and the log gains one entry with the role, its grants, heirs and subordinates |
| RoleRestoration.RestoreUndoesRetire | src/database/migrations/1767226010000-custodian-retirement-loan-cancel-and-surplus-center.ts:156-203 | the statements of a restoration right after a retirement compute the old database value, audit log included, and no key of roles or rules stops them; the separation trigger still may, as RestorationPassesExactlyWhen tells |
| RoleRestoration.RestoresGrants | src/database/migrations/1767226010000-custodian-retirement-loan-cancel-and-surplus-center.ts:116-124 | the copied grants removed by the restoration are exactly those that did not exist before the retirement |
| RoleRestoration.RestorationClosesNoCycle | src/database/migrations/1767226010000-custodian-retirement-loan-cancel-and-surplus-center.ts:173-190 | the no-cycle trigger never refuses a restoration that follows a retirement |
| RoleRestoration.RestorationPassesExactlyWhen | src/database/migrations/1767226010000-custodian-retirement-loan-cancel-and-surplus-center.ts:173-190 | the separation trigger lets it through if and only if the original lineages around the role held no clash |
| RoleRestoration.RuledHeirBlocksRestoration | src/database/migrations/1767226010000-custodian-retirement-loan-cancel-and-surplus-center.ts:173-190 | a concrete sound table, a role under the retired one with a static rule between the two: retired without objection, and the trigger refuses the restoration |
| RoleRestoration.RestorationIsSound | src/database/migrations/1767226010000-custodian-retirement-loan-cancel-and-surplus-center.ts:156-203 | a restoration that fits and passes the triggers keeps foreign keys, acyclicity and user separation, whatever was written since the record was made |
| RoleRestoration.RolesAfterRestoration | src/database/migrations/1767226010000-custodian-retirement-loan-cancel-and-surplus-center.ts:173-195 | whatever was written since: the role is as recorded, its recorded heirs and subordinates are under it, and nothing else of any role changes |
| RoleRestoration.GrantsAfterRestoration | src/database/migrations/1767226010000-custodian-retirement-loan-cancel-and-surplus-center.ts:177-201 | the recorded grants are back as recorded, the recorded copies are gone, every other grant stays |
| RoleRestoration.GrantsFitExactlyWhen | src/database/migrations/1767226010000-custodian-retirement-loan-cancel-and-surplus-center.ts:173-180 | the keys let the role and its grants in exactly when unique codes and foreign keys hold afterwards and no grant is overwritten |
| RoleStores.RoleStore.Retire | src/database/migrations/1767226010000-custodian-retirement-loan-cancel-and-surplus-center.ts:95-153 | the statements in order commit exactly the retired state, or change nothing when an assignment, a trigger or a foreign key objects |
| RoleStores.RoleStore.RetireCustodian | src/database/migrations/1767226010000-custodian-retirement-loan-cancel-and-surplus-center.ts:88-154 | as above for the role found by code, nothing when there is none; the tables stay sound and the record written is one the restoration can use |
| RoleStores.RoleStore.RestoreCustodian | src/database/migrations/1767226010000-custodian-retirement-loan-cancel-and-surplus-center.ts:156-203 | the restoration uses and removes the latest record; it commits exactly when every key, those of the restored grants among them, and the triggers allow, and tables that were sound stay sound when every record was written by a retirement |
| RoleStores.RoleStore.Restore | src/database/migrations/1767226010000-custodian-retirement-loan-cancel-and-surplus-center.ts:164-202 | the statements in order commit exactly the restored state of the record, or change nothing when a primary, unique or foreign key or a trigger objects |
| RoleStores.RetireThenRestore | src/database/migrations/1767226010000-custodian-retirement-loan-cancel-and-surplus-center.ts:88-203 | up and down on the tables: after a retirement that went through, the restoration ends in the old state if and only if no lineage around the role clashes, and otherwise refuses and leaves the role retired |
| RoleStores.AfterRetirement | src/database/migrations/1767226010000-custodian-retirement-loan-cancel-and-surplus-center.ts:156-203 | right after a retirement the restoration can run if and only if no lineage around the role clashes: its record is the latest one, and every key is there or free |
| RoleStores.TriggersAfterUpdate | src/database/migrations/1767225750000-rbac-inheritance-hardening.ts:184-188 | a multi-row update passes exactly when the inheritance trigger passes each updated row on the final table |
| AssetUploads.EveryRunIsConsistent | src/modules/email-templates/email-asset-uploads.service.ts:39-87 | for any number of interleaved uploads: one row per digest, every row's object stored, keys owned by one client, in every state |
| AssetUploads.LoserSparesReferencedObjects | src/modules/email-templates/email-asset-uploads.service.ts:80-84 | a losing upload's delete, failed or not, never removes an object a row refers to |
| AssetUploads.SameContentSameAsset | src/modules/email-templates/email-asset-uploads.service.ts:49-86 | all finished uploads of one content return the same stored asset |
| AssetUploads.ReadBackFindsRow | src/modules/email-templates/email-asset-uploads.service.ts:84-86 | the final read always finds its row |
| AssetUploads.NoObjectLeftBehind | src/modules/email-templates/email-asset-uploads.service.ts:54-87 | once all uploads have returned and no step failed, the stored objects are exactly those rows refer to |
| AssetUploads.NobodyIsStuck | src/modules/email-templates/email-asset-uploads.service.ts:39-87 | an upload that neither returned nor failed always has a next step of its own |
| AssetUploads.EveryStepGoesOn | src/modules/email-templates/email-asset-uploads.service.ts:39-87 | every step brings its own upload nearer its end, five steps at most, and moves no other |
| TemplateVersions.EveryRunIsConsistent | src/modules/email-templates/email-templates.service.ts:83-129 | under all interleavings of create and activate the table and every open transaction's view of its type stay consistent |
| TemplateVersions.VersionsAreNumbered | src/modules/email-templates/email-templates.service.ts:93-109 | in every committed state the versions of a type are exactly 1..n and exactly one row is active unless there is none |
| TemplateVersions.DefaultIsLastCommitted | src/modules/email-templates/email-templates.service.ts:153-220 | the resolved default design is that of the last committed create or activate of the type |
| TemplateVersions.AskedVersionDecides | src/modules/email-templates/email-templates.service.ts:204-220 | a version asked for by id decides the design while it is of the type, active or not; otherwise the default does |
| TemplateVersions.CreateAlone | src/modules/email-templates/email-templates.service.ts:83-112 | when the lock of the type is free create goes through: the new row is the next version and the active one, the others of its type go inactive, and no other row, transaction or lock changes |
| TemplateVersions.ActivateAlone | src/modules/email-templates/email-templates.service.ts:114-129 | so does activate: the row found becomes the active one of its type, and nothing else changes |
| TemplateVersions.MissingVersionIsRefused | src/modules/email-templates/email-templates.service.ts:114-119 | activating a version that is not there ends without a lock and without a write |
| TemplateVersions.StaleReadIsHarmless | src/modules/email-templates/email-templates.service.ts:117-126 | the row activate reads before the lock differs from the current one at most in its active mark, which the save overwrites |
| TemplateVersions.UniqueActiveIndexHolds | src/modules/email-templates/email-templates.service.ts:91-126 | inside a transaction no statement ever leaves two active rows of a type |
| TemplateVersions.CommitTouchesOneType | src/modules/email-templates/email-templates.service.ts:83-129 | a commit changes rows of its own type only |
| EmailText.BuildParagraph | src/database/migrations/1767225820000-email-rich-paragraph-and-assets.ts:21-32 | the line loop builds exactly the paragraph of the specification |
| EmailText.DocRoundTrip | src/database/migrations/1767225820000-email-rich-paragraph-and-assets.ts:16-60 | for every text, docToText of textToDoc is the text with CRLF and CR turned into LF |
| EmailText.TextIsDividedAtBlankLines | src/database/migrations/1767225820000-email-rich-paragraph-and-assets.ts:16-35 | the document is a paragraph for each part between blank lines, made of line breaks and non-empty pieces of one line |
| EmailText.ListReads | src/database/migrations/1767225820000-email-rich-paragraph-and-assets.ts:46-60 | list items read as their number, from 1 on, or a dash, a space and their text, one a line |
| EmailText.LinkReads | src/database/migrations/1767225820000-email-rich-paragraph-and-assets.ts:37-45 | a linked piece reads as its text with the address behind it, unless the two are the same |
| EmailText.DowngradeUndoesUpgrade | src/database/migrations/1767225820000-email-rich-paragraph-and-assets.ts:62-80 | downgrading upgraded blocks gives them back with every paragraph's newlines normalised |
| EmailText.DowngradeIsExactWithoutCR | src/database/migrations/1767225820000-email-rich-paragraph-and-assets.ts:62-80 | they come back unchanged if and only if no paragraph holds a carriage return |
| EmailText.UpgradeTwice | src/database/migrations/1767225820000-email-rich-paragraph-and-assets.ts:62-67 | upgrading twice is upgrading once |
| EmailText.DowngradedBlock | src/database/migrations/1767225820000-email-rich-paragraph-and-assets.ts:69-80 | a document block goes back to its text, an image to its description, any other stays |
| EmailText.LegacyRoundTrip | src/database/migrations/1767225800000-email-template-blocks.ts:17-43 | what legacyBodyToBlocks made survives blocksToLegacyBody and legacyBodyToBlocks unchanged |
| EmailText.LegacyBlockReads | src/database/migrations/1767225800000-email-template-blocks.ts:26-43 | what a heading, callout, button, divider and list of labels and values read as |
| EmailText.LegacyBodyGrows | src/database/migrations/1767225800000-email-template-blocks.ts:26-46 | each block with text is one part of the body, parts stand a blank line apart, and blocks without text leave none |
| Strings.SplitJoin | src/database/migrations/1767225820000-email-rich-paragraph-and-assets.ts:19-20 | leftmost split undoes join when no part holds a blank line and only the last may end in a newline |
| LinkTokens.TokenIsMatched | src/database/migrations/1767225840000-email-link-variables-as-links.ts:30-30 | every token of the text is matched where it starts |
| LinkTokens.MatchIsToken | src/database/migrations/1767225840000-email-link-variables-as-links.ts:30-30 | whatever the pattern matches is a token: braces, white space, a name, white space, braces |
| LinkTokens.MatchesDoNotOverlap | src/database/migrations/1767225840000-email-link-variables-as-links.ts:30-43 | no match starts strictly inside another |
| LinkTokens.ScanSeparates | src/database/migrations/1767225840000-email-link-variables-as-links.ts:42-56 | cutting at the known tokens loses no character, finds every known token and leaves none in the plain pieces |
| LinkTokens.OnePieceExactlyWhen | src/database/migrations/1767225840000-email-link-variables-as-links.ts:53-55 | a text is left in one piece if and only if it holds no known token |
| LinkConversion.ConvertText | src/database/migrations/1767225840000-email-link-variables-as-links.ts:32-58 | the loop over matches returns exactly the nodes of the cut text, or the node itself when nothing matched |
| LinkConversion.ConvertedTextKeeps | src/database/migrations/1767225840000-email-link-variables-as-links.ts:53-55 | a text node is one piece if and only if it holds no known token, and then it is returned unchanged |
| LinkConversion.ConversionIsReadable | src/database/migrations/1767225840000-email-link-variables-as-links.ts:49-57 | replacing each new link by its href gives the node's text back up to white space inside the braces |
| LinkConversion.SecondConversionIsNull | src/database/migrations/1767225840000-email-link-variables-as-links.ts:87-99 | after a conversion that changed something a second one returns null |
| LinkConversion.NoTokenLeft | src/database/migrations/1767225840000-email-link-variables-as-links.ts:60-78 | after the conversion no paragraph or list item holds a known token as text |
| LinkConversion.DocumentKeepsShape | src/database/migrations/1767225840000-email-link-variables-as-links.ts:60-78 | blocks, items and paragraphs keep number, order, kind and marks, and each paragraph becomes the converted one in its place |
| LinkConversion.ParagraphKeepsPlace | src/database/migrations/1767225840000-email-link-variables-as-links.ts:60-63 | the nodes of a paragraph keep their order: each stays, or is replaced in place by pieces that read as its text |
| LinkConversion.TokenBecomesLink | src/database/migrations/1767225840000-email-link-variables-as-links.ts:39-51 | an unlinked token becomes its link text under the same marks and a link to the token; one inside a link keeps that link |
| LinkConversion.NullExactlyWhen | src/database/migrations/1767225840000-email-link-variables-as-links.ts:87-99 | null exactly when the type has no links or no block changes |
| LinkConversion.MigrationConvertsOnce | src/database/migrations/1767225840000-email-link-variables-as-links.ts:8-17 | the migration's own table of link variables is quiet, so converting any template twice is converting it once |
| LinkMigration.NextVersion | src/database/migrations/1767225840000-email-link-variables-as-links.ts:133-134 | max(version) + 1 is above every version of the type |
| LinkMigration.TemplateTable.Up | src/database/migrations/1767225840000-email-link-variables-as-links.ts:122-138 | each converted active row is replaced by a numbered active copy, and after every statement at most one row per type is active |
| LinkMigration.TemplateTable.Down | src/database/migrations/1767225840000-email-link-variables-as-links.ts:140-159 | the loop leaves the table of the specification: created rows with a source are deleted and their source reactivated, and after every statement at most one row per type is active |
| LinkMigration.DownKeepsOneActive | src/database/migrations/1767225840000-email-link-variables-as-links.ts:140-159 | from any table that meets the index on active rows, whoever wrote it, every turn of the loop meets it too |
| LinkMigration.DownDeletesExactly | src/database/migrations/1767225840000-email-link-variables-as-links.ts:140-159 | of any table, down deletes exactly the rows the migration made whose source can be told, active or not, and changes nothing of the others but that a row may become active |
| LinkMigration.DownActivatesOnlySources | src/database/migrations/1767225840000-email-link-variables-as-links.ts:144-157 | a row becomes active only as the source of an active copy that is deleted |
| LinkMigration.DownUndoesUp | src/database/migrations/1767225840000-email-link-variables-as-links.ts:122-159 | when no earlier row looks like a copy, down after up gives back all rows but for active marks, one active row per type at most, and for each row that was active an active one of the same subject and conversion |
| LinkMigration.ReactivatedIsTwin | src/database/migrations/1767225840000-email-link-variables-as-links.ts:144-157 | the reactivated row has the type, subject and conversion of the row that was active |
| LinkMigration.NewestTwinIsReactivated | src/database/migrations/1767225840000-email-link-variables-as-links.ts:144-157 | of the versions with the same type, subject and conversion it is the newest |
| LinkMigration.DownIsExactExactlyWhen | src/database/migrations/1767225840000-email-link-variables-as-links.ts:122-159 | with version numbers unique per type, as the schema has them, down after up gives exactly the old table if and only if no converted active version has a newer version of the same type, subject and conversion |
| LinkMigration.TwoVersionsComeBackChanged | src/database/migrations/1767225840000-email-link-variables-as-links.ts:144-157 | two versions of any convertible text, the older one active: the round trip changes the table |
| LinkMigration.InvitationsComeBackChanged | src/database/migrations/1767225840000-email-link-variables-as-links.ts:144-157 | the same for two versions of the invitation template under the migration's own variables |
| InventoryActs.SplitMeetsConstraints | src/database/migrations/1767226000000-inventory-acts-per-cost-center-and-price-zero.ts:24-85 | for any tables meeting the old CHECKs the split meets every CHECK and the NULLS NOT DISTINCT key of the new table |
| InventoryActs.CenterActExactlyWhen | src/database/migrations/1767226000000-inventory-acts-per-cost-center-and-price-zero.ts:8-19 | a closed inventory that is divided has an act for a centre exactly when the centre is its scope or, unscoped, an item in force expects it there or a surplus item has its asset, or lacking that its resolved asset, there |
| InventoryActs.WholeActExactlyWhen | src/database/migrations/1767226000000-inventory-acts-per-cost-center-and-price-zero.ts:54-60 | an act without a centre exists exactly for an inventory of another scope with a request, and that has no other; an open inventory has none but that |
| InventoryActs.ActHolds | src/database/migrations/1767226000000-inventory-acts-per-cost-center-and-price-zero.ts:54-85 | what each act takes over: attendees always, request, document and signer unless the inventory was divided, a block where there is no request, dated now if it had no date |
| InventoryActs.ActRowsAreValid | src/database/migrations/1767226000000-inventory-acts-per-cost-center-and-price-zero.ts:44-51 | the CHECKs and the unique key in the columns of each act made |
| InventoryActs.RequestsAreNotDuplicated | src/database/migrations/1767226000000-inventory-acts-per-cost-center-and-price-zero.ts:54-85 | at most one act of an inventory carries a request, and it is the inventory's own |
| InventoryActs.RequestLandsExactlyWhen | src/database/migrations/1767226000000-inventory-acts-per-cost-center-and-price-zero.ts:60-84 | a request lands in an act if and only if its inventory is unscoped by centre, or closed with a scope id |
| InventoryActs.RequestWithoutCenterIsDropped | src/database/migrations/1767226000000-inventory-acts-per-cost-center-and-price-zero.ts:60-84 | a concrete closed inventory scoped by centre with no scope id, as an earlier migration made them: its request is in no act |
| InventoryActs.LinksRoundTrip | src/database/migrations/1767226000000-inventory-acts-per-cost-center-and-price-zero.ts:86-103 | documents and requests point back where they pointed after the reverse migration |
| InventoryActs.LinkMovesExactlyWhen | src/database/migrations/1767226000000-inventory-acts-per-cost-center-and-price-zero.ts:86-103 | a document or request is pointed at an act exactly when it is of the act format, names an inventory and that has an act with a request; any other stays as it is |
| InventoryActs.FirstActExactlyWhen | src/database/migrations/1767226000000-inventory-acts-per-cost-center-and-price-zero.ts:247-251 | the act merged back has a request if any act does, and the least rank among those like it |
| InventoryActs.RequestsRecoveredExactlyWhen | src/database/migrations/1767226000000-inventory-acts-per-cost-center-and-price-zero.ts:190-252 | down after up gives every request id back if and only if every inventory holding one meets that condition |
| InventoryActs.ColumnsRecoveredExactlyWhen | src/database/migrations/1767226000000-inventory-acts-per-cost-center-and-price-zero.ts:54-252 | down after up gives an inventory all its act columns back if and only if it had none and got no act, or got one and had no block beside a request, no block without a time and, when not scoped by centre, no signer and no document without a request |
| InventoryActs.SignerOfWholeActIsLost | src/database/migrations/1767226000000-inventory-acts-per-cost-center-and-price-zero.ts:235-252 | a concrete inventory of another scope that gets its request back but not its signer |
| InventoryActs.UpThenDown | src/database/migrations/1767226000000-inventory-acts-per-cost-center-and-price-zero.ts:54-270 | up and down on the tables: down is never refused, a request survives exactly by its guard, all columns exactly by theirs, and every document and request points where it did |
| InventoryActs.InventoryStore.Up | src/database/migrations/1767226000000-inventory-acts-per-cost-center-and-price-zero.ts:54-103 | the statements in order build exactly the split acts and repointed links |
| InventoryActs.InventoryStore.Down | src/database/migrations/1767226000000-inventory-acts-per-cost-center-and-price-zero.ts:190-270 | refused exactly while an inventory has two acts with a request or an asset is classified; otherwise the first act by rank is merged back, whatever the order among acts |
| Placements.ReplacedIsChained | src/modules/cost-centers/services/cost-center-placement.service.ts:274-302 | closing the current row and opening the next keeps the rows gap-free and disjoint whatever the clock says |
| Placements.ExactlyOneValid | src/database/migrations/1767225890000-cost-center-structure-history.ts:39-48 | from the first placement on exactly one row is valid at every instant |
| Placements.ReplacedAsOf | src/modules/cost-centers/services/cost-center-placement.service.ts:275-302 | after a change an as-of query answers the new placement from the start of the new row on and the same as before it earlier |
| Placements.AssertNoCycle | src/modules/cost-centers/services/cost-center-placement.service.ts:589-609 | the level-by-level query finds the centre exactly when it is within 64 levels of the new parent; a self and a missing parent are refused as such |
| Placements.PassedCheckIsEnoughExactlyWhen | src/modules/cost-centers/services/cost-center-placement.service.ts:597-605 | a parent that passes keeps the tree acyclic if and only if the centre is not more than 64 levels above it |
| Placements.CheckIsExactWhenShallow | src/modules/cost-centers/services/cost-center-placement.service.ts:589-609 | in a tree of no more than 64 levels the check accepts exactly the harmless parents |
| Placements.DeepCycleIsAccepted | src/modules/cost-centers/services/cost-center-placement.service.ts:597-605 | a concrete 66-level chain on which an accepted change closes a cycle |
| Placements.PlacementService.Create | src/database/migrations/1767225890000-cost-center-structure-history.ts:61-79 | a new centre has one open row from its creation on |
| Placements.PlacementService.Change | src/modules/cost-centers/services/cost-center-placement.service.ts:201-333 | the outcome is the first answer that applies; an accepted change gives each field the value asked for, or leaves it when nothing was asked, closes the open row where the new one starts and opens that under the mode asked for or in force; a refused one changes nothing |
| Placements.EmptyPatchIsUnchanged | src/modules/cost-centers/services/cost-center-placement.service.ts:226-241 | a request that asks for nothing is answered with nothing to change |
| Placements.DisjointPatchesCommute | src/modules/cost-centers/services/cost-center-placement.service.ts:226-230 | two patches about different fields give the same placement in either order, and one given twice is given once |
| Placements.WithoutOpenRow | src/modules/cost-centers/services/cost-center-placement.service.ts:231-236 | without an open row the mode in force is automatic and the new row starts now |
| Placements.PlacementService.Judge | src/modules/cost-centers/services/cost-center-placement.service.ts:201-272 | the answer is the first in order of those that apply: unknown centre, nothing to change, unknown unit, archived unit, self parent, unknown parent, cycle, assets left, placed |
| Placements.VerdictIsUnique | src/modules/cost-centers/services/cost-center-placement.service.ts:201-272 | there is exactly one such answer, so the order decides |
| Placements.PlacedIsChecked | src/modules/cost-centers/services/cost-center-placement.service.ts:201-272 | a change that is placed is a step of a checked run, with a unit in use |
| Placements.HistoryReplays | src/modules/cost-centers/services/cost-center-placement.service.ts:274-308 | over any run on a clock that does not go back, the history at an instant is the state the system was in then |
| Placements.PastIsFixed | src/modules/cost-centers/services/cost-center-placement.service.ts:275-280 | later changes never alter the answer for an earlier instant |
| Placements.PastTreesAreAcyclic | src/modules/cost-centers/services/cost-center-placement.service.ts:254-256 | the parent tree at every past instant is acyclic if every live state was |
| Placements.CheckedRunsKeepPastTrees | src/modules/cost-centers/services/cost-center-placement.service.ts:254-256 | in every run whose parents passed the service's own check on trees of at most 64 levels, the tree at every past instant is acyclic |
| AssetRequests.StepsKeepSound | src/modules/asset-requests/services/asset-requests.service.ts:362-811 | every step on one request keeps its CHECKs, acceptor other than requester, and items open exactly while accepted or returned |
| AssetRequests.SoundOpenItems | src/modules/asset-requests/domain/asset-request.ts:51-59 | a request holds all the assets it names exactly while accepted or returned |
| AssetRequests.CorrectionKeepsAssetsExactlyWhen | src/modules/asset-requests/services/asset-requests.service.ts:426-493 | a correction keeps the chosen assets if and only if it keeps kind and both centres |
| AssetRequests.AcceptedAssetsAreTheNamedOnesExactlyWhen | src/modules/asset-requests/services/asset-requests.service.ts:362-392 | an acceptance leaves exactly the named assets reserved if and only if the request was new: the table also admits returned ones |
| AssetRequests.ReturnedRequestCanBeAccepted | src/modules/asset-requests/domain/asset-request.ts:26-29 | a concrete returned request that an owner accepts again, ending with more assets than named |
| LendingRuns.RequestInEveryRun | src/modules/asset-requests/services/asset-requests.service.ts:313-811 | in every reachable state: CHECKs, acceptor other than requester, held assets shared with no other request, and scheduled exactly while its loan is approved |
| LendingRuns.LoanInEveryRun | src/modules/loans/services/loans.service.ts:351-1119 | in every reachable state: the loan's request follows it, its closing status is what its items say, its returns are dated no earlier than its delivery, it shares no engaged asset with another open loan, and whoever approved it did not ask for it |
| LendingGuards.RequestAllowedExactlyWhen | src/modules/asset-requests/services/asset-requests.service.ts:313-811 | in every sound state each step on a request is allowed exactly under its guard in the columns: statuses, identities, centres and dates, and assets in use or in storage that no open loan, request or other hold has |
| LendingGuards.LoanAllowedExactlyWhen | src/modules/loans/services/loans.service.ts:351-1291 | the same for each step on a loan |
| LendingGuards.UnusableAssetIsRefused | src/modules/loans/services/loans.service.ts:77-80 | no step promises, lends or hands over an asset that is on loan, in maintenance, lost or written off |
| LendingGuards.UsableAssetCanBeLent | src/modules/loans/services/loans.service.ts:351-420 | an asset in use or in storage that is free can be lent |
| LendingGuards.ItemsWereUsable | src/modules/loans/services/loans.service.ts:404-408 | every item of every loan of every run was in use or in storage when it was lent, and again when handed over |
| LendingGuards.AssetWritesAllowedExactlyWhen | src/modules/inventories/services/inventories.service.ts:533-562 | an edit never puts an asset on loan or takes it off; a reconciliation loses any asset not lost or written off yet, one on loan too |
| LendingGuards.ReturnsAreDatedInEveryRun | src/modules/loans/services/loans.service.ts:984-1013 | in every run each return is recorded under a date no earlier than the delivery |
| LendingGuards.ColumnsFitInEveryRun | src/database/migrations/1767225930000-asset-requests.ts:42-54 | the CHECKs of a request, column by column, in every run |
| LendingGuards.RequestMovesAlong | src/modules/asset-requests/domain/asset-request.ts:26-37 | the status pairs a step can move a request along |
| LendingGuards.LoanMovesAlong | src/modules/loans/domain/loan-transitions.ts:5-18 | the status pairs a step can move a loan along: none is ever in transit |
| LendingRuns.StepKeepsHeldOnce | src/modules/asset-requests/services/asset-requests.service.ts:362-412 | no step lets two requests hold one asset |
| LendingRuns.StepKeepsLentOnce | src/modules/loans/services/loans.service.ts:409-420 | no step puts an asset in two open loans |
| Reservations.StepKeepsApartExactlyWhen | src/modules/loans/services/loans.service.ts:351-477 | a step keeps reserved assets and assets in open loans apart if and only if it is not a direct loan of a reserved asset |
| Reservations.RunStaysApartExactlyWhen | src/modules/loans/services/loans.service.ts:351-477 | over every run they stay apart in every state if and only if no such loan was made |
| Reservations.DirectLoanTakesAReservedAsset | src/modules/loans/services/loans.service.ts:351-477 | a concrete run from empty tables that makes such a loan |
| LendingRuns.StepKeepsLinked | src/modules/asset-requests/services/asset-requests.service.ts:654-710 | delivery, rejection and cancellation of a loan move its request with it: a request and its loan point at each other and their statuses match after every step |
| LendingRuns.OnlyItsLoanMovesIt | src/modules/asset-requests/services/asset-requests.service.ts:654-710 | a step that is not the delivery, rejection or cancellation of its loan leaves a request with a loan unchanged |
| AssetRequests.ResubmissionChangesNothingElse | src/modules/asset-requests/services/asset-requests.service.ts:426-476 | correcting a returned request to what it already says is allowed and changes only its status and deadline |
| LendingRuns.RunsStayFulfilled | src/modules/asset-requests/services/asset-requests.service.ts:554-622 | in every run the loan of a request lends exactly its reserved assets, between its two centres, from its start date, for its requester, approved by whoever accepted it |
| LendingRuns.ExpiresAfterFourteenDays | src/modules/asset-requests/services/asset-requests.service.ts:771-811 | while a request holds its assets it may expire exactly fourteen days after its last acceptance, return or correction, whatever ran in between |
| LendingRuns.RequestFollowsTable | src/modules/asset-requests/domain/asset-request.ts:26-37 | a request that changes status moves along the transition table |
| LendingRuns.LoanFollowsTable | src/modules/loans/domain/loan-transitions.ts:5-18 | so does a loan; one that keeps its status changes only by an extension asked for, approved or turned down |
| LendingRuns.ClosedRequestsAreFinal | src/modules/asset-requests/domain/asset-request.ts:30-37 | a closed request never changes again in any run and holds nothing |
| LendingRuns.ClosedLoansAreFinal | src/modules/loans/domain/loan-transitions.ts:8-17 | in any run a closed loan stays as it is if and only if nobody turns down its pending extension, and nothing else of it ever changes |
| Extensions.ClosedLoanCanChange | src/modules/loans/services/loans.service.ts:1278-1291 | a concrete run from empty tables to a closed loan that turning down its extension still changes |
| Extensions.DueOnlyMovesForward | src/modules/loans/services/loans.service.ts:1212-1273 | over every run a due date moves forward only, and moves if and only if an extension of its loan is approved |
| Extensions.DueWasAskedFor | src/modules/loans/services/loans.service.ts:1212-1273 | over every run a due date is the first one or one that the requester of the loan asked for |
| Loans.ReceptionTellsTheItems | src/modules/loans/domain/loan-transitions.ts:31-38 | after any number of partial returns a loan is partial, returned or closed with losses exactly as its items say |
| Loans.ReceivedReturnIsShaped | src/modules/loans/services/loans.service.ts:1028-1091 | each reception leads to a status the table allows and keeps what later receptions rely on |
| AssetsOnLoan.RunIsExactExactlyWhen | src/modules/inventories/services/inventories.service.ts:533-562 | over every run an asset is ON_LOAN exactly while out if and only if no reconciliation marked an asset lost while it was out |
| AssetsOnLoan.StepIsExactExactlyWhen | src/modules/loans/services/loans.service.ts:730-985 | the same for each single step |
| AssetsOnLoan.StruckLoanNeverCloses | src/modules/loans/services/loans.service.ts:1040-1085 | a loan with such an asset never closes and never receives it, whatever follows |
| AssetsOnLoan.ReconciliationStrandsALoan | src/modules/inventories/services/inventories.service.ts:445-470 | a concrete run from empty tables that ends in such a loan |
| AssetsOnLoan.AssetsComeBackAsTheyLeft | src/modules/loans/services/loans.service.ts:1045-1076 | however long after delivery, undo and reception give each asset the status it left with, or lost |
| AssetsOnLoan.UndoReversesDelivery | src/modules/loans/services/loans.service.ts:911-975 | undoing a delivery at once restores every asset |
| LendingDesk.Desk.AcceptRequest | src/modules/asset-requests/services/asset-requests.service.ts:362-412 | the transaction accepts exactly when the step may happen, with assets held by transfers, inventories and write-offs refused, and reserves exactly the chosen assets, or changes nothing |
| LendingDesk.Desk.ExpireDue | src/modules/asset-requests/services/asset-requests.service.ts:771-811 | the loop is a run of at most `limit` expiries; when it stops short nothing due is left |
| LendingDesk.Desk.Earliest | src/modules/asset-requests/services/asset-requests.service.ts:775-780 | the due request with the earliest deadline |
| LendingDesk.Desk.Generate | src/modules/asset-requests/services/asset-requests.service.ts:524-648 | the transaction is the scheduling step with its new approved loan, or rolls back |
| LendingDesk.Desk.CreateWithin | src/modules/loans/services/loans.service.ts:351-477 | a loan is created exactly when all assets share one source other than the target, are loanable, in no open loan and no write-off, and the target is ready |
| LendingDesk.Desk.HandOver | src/modules/loans/services/loans.service.ts:741-796 | the loop marks every asset and notes its status, or rolls all back at the first refused asset |
| LendingDesk.Desk.Deliver | src/modules/loans/services/loans.service.ts:675-836 | the transaction is the delivery step with its request, or changes nothing: refused before its start, after its due date, for an unready target or an asset that cannot leave |
| LendingDesk.Desk.UndoDelivery | src/modules/loans/services/loans.service.ts:911-975 | the loop gives every asset its recorded status, or rolls back when one is not on loan |
| LendingDesk.RecordReturns | src/modules/loans/services/loans.service.ts:984-1013 | the list is taken exactly when it repeats no asset, names only assets still out and dates each return between delivery and now; each item gets its condition and date |
| LendingDesk.Desk.StartReturn | src/modules/loans/services/loans.service.ts:977-1026 | the transaction is the return step with the listed conditions and dates, or changes nothing |
| LendingDesk.Desk.ReceiveReturn | src/modules/loans/services/loans.service.ts:1028-1091 | the loop receives exactly the recorded items still out, or rolls back |
| Csv.DocumentReadsBack | src/common/csv/csv-cell.ts:6-18 | a reader of section 2 of RFC 4180 gives back the shown value of every cell of every document, for both separators and line breaks |
| Csv.WrittenDocumentsReadBack | src/modules/movements/services/movements.service.ts:195-213 | both documents the system writes, with commas and line feeds and with semicolons and CR LF, read back |
| Csv.ShownExactly | src/common/csv/csv-cell.ts:1-4 | a text is shown behind an apostrophe exactly when it starts with one of = + - @, tab or carriage return |
| Csv.QuotedExactlyWhen | src/common/csv/csv-cell.ts:13-16 | a cell is quoted exactly when what it shows holds the separator, a quotation mark or part of a line break |
| Csv.ReadsCell | src/common/csv/csv-cell.ts:6-18 | one cell reads back as its shown value in front of any separator or line break |
| Csv.NoTextStartsAFormula | src/common/csv/csv-cell.ts:1-4 | a cell read back starts a formula if and only if it is a system number that does |
| Csv.NeutralizedAlikeExactlyWhen | src/common/csv/csv-cell.ts:3-4 | two texts show alike if and only if they are equal or one is the other, a formula, quoted |
| EventStream.StreamReadsBack | src/modules/events/sse.ts:1-4 | any stream of one-line events reads back as the same events, each with the id of the last one that carried one |
| EventStream.OnlyIdsMoveTheResumePoint | src/modules/events/sse.ts:4-4 | events without an id, pings among them, never change the last event id |
| EventStream.ResolveLastEventId | src/modules/events/sse.ts:13-22 | header before query; the result is a canonical decimal of equal value below 2^63 |
| EventStream.ResolvingTwiceIsOnce | src/modules/events/sse.ts:15-22 | resolving a resolved id gives it back |
| EventStream.DecimalIsEventId | src/modules/events/sse.ts:13-13 | the decimal text of a number is accepted if and only if the number is below 10^18 |
| EventStream.ReconnectResumesExactlyWhen | src/modules/events/sse.ts:1-22 | a client that read any stream of sequence numbers resumes from the last if and only if it is below 10^18 |
| EventStream.LargeIdDoesNotResume | src/modules/events/sse.ts:1-22 | the stream of one event whose id is any number from 10^18 on: the client keeps the id and the server ignores it |

## Left out

- The category trigger (src/database/migrations/1767225606000-phase3-categories.ts:13-43) has no row of its own: its body is that of the unit trigger.
- Concurrent transactions over the role, request and loan tables: row locks make them serial in the model, and PostgreSQL's isolation anomalies between trigger checks are not modelled.
- Undeleting a role and other unguarded writes to the role tables, apart from adding a separation rule.
- RoleStores.RoleStore.RestoreCustodian: touches no timestamps, because updated_at carries no claim.
- Grant conditions in permission answers: permissions are compared by id, because the view does not merge conditions.
- Link tables as JavaScript objects: `links[name]` would also find inherited names such as `constructor`; the model takes a finite map.
- JSON equality of blocks: `canonical` is equality of values.
- TemplateVersions.DefaultIsLastCommitted: speaks of the stored subject and blocks, because validation, placeholders and rendering are other functions.
- InventoryActs.InventoryStore.Down: takes the order among acts as a parameter, so what is proved holds for every order; external codes are not modelled. Of the price-zero tables of the same migration only which assets are classified is kept.
- Placements.HistoryReplays: assumes commit order on a clock that does not go back, because across centres each transaction reads its own clock; for one centre no such assumption is needed.
- Placement reasons, users, addresses, sources, and the clearing of accepts_assets.
- Requests and loans: who is head of a centre, in Internal Control or a scoped approver; notices, documents, events and audit. Active persons and centres, signers and contacts are one readiness fact given with the step.
- How holds by transfers, inventories and write-offs come about: a step is given the assets so held.
- Notes on returned assets, and the creation of a transfer, which here is only its id.
- Loans in IN_TRANSIT and items without a recorded status: rows older than the present code, which no operation creates.
- LendingDesk.Desk.AcceptRequest: takes the chosen assets as a set, because the service removes repeats first.
- One-row request and loan updates (create, close, correct, cancel, send back, approve, reject, sign, mark overdue, ask for, approve and turn down an extension): they are steps of the state machine and have no method of their own.
- The byte order mark before the issues file and the text of its rows: a reader drops the mark.
- JSON.stringify, BigInt parsing of longer texts, retry and comment lines of the event stream protocol: no event sent here has them.
- Refresh tokens, lockout, signing links, feature flags, row-level security, search indexes, report views and configuration.
