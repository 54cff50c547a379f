# crm-manager authentication domain, modelled in Dafny

This project models the authentication and tenancy core of the crm-manager backend. It covers:

- **Domain layer**: the role hierarchy, the `User`, `Organization`, `Invitation` and `RefreshToken` entities, and the `Password` value object.
- **Infrastructure**:
  - how `PasswordHashing` reads the bcrypt cost factor back out of a hash;
  - the four repositories, which run the `users`, `organizations`, `invitations` and `refresh_tokens` queries.

How the model is built:

- **Entities are immutable records.** They become datatypes, and their factories (`create`) become functions.
- **Repositories keep state.** Each is a class whose `rows` field is the table's rows as a sequence in insertion order.
- **Every query is a function over `rows`.** `where … limit 1` is the first matching row in table order.
- **Every statement is a method.** An `insert`, `update` or `delete` changes `rows`. Its contract gives the new table as a function of the old one, and its `ensures` keep the table's unique constraints as an invariant (`Valid`).
- **Values that come from the environment are parameters:**
  - the current time (`new Date()`, `Date.now()`), as an integer `now` in milliseconds;
  - the id the database generates.

Modules, one per source file plus three support modules:

| module | models |
|---|---|
| `Wrappers` | `Option`, `Result` |
| `Tables` | row filtering and first match |
| `JsText` | the JavaScript string and number built-ins the code calls: `split`, `join`, `parseInt`, leading-whitespace removal, `length`, number-to-string (`trim` itself is in `Organizations`) |
| `Roles` | `role.enum.ts` |
| `Users` | `user.entity.ts` |
| `Passwords` | `password.vo.ts` |
| `Organizations` | `organization.entity.ts`, including `generateSlug` |
| `Invitations` | `invitation.entity.ts` |
| `RefreshTokens` | `refresh-token.entity.ts` |
| `PasswordHashing` | `password-hashing.service.ts` |
| `OrganizationStore`, `RefreshTokenStore`, `InvitationStore`, `UserStore` | the four repositories |
| `SlugExamples`, `OrganizationStoreExamples` | worked examples proved about the model |

Where the code's behaviour may surprise a reader, the model follows the code:

- **Expiry.** A refresh token or an invitation is still valid or pending at exactly `expiresAt`. The code tests `new Date() > expiresAt`.
- **`deleteExpired`.** It removes rows with `expiresAt < now`. For invitations it removes only those with `acceptedAt` null. What is left is exactly the valid or accepted rows (`RefreshTokenStore.KeptIffValid`, `InvitationStore.KeptIffAcceptedOrPending`).
- **`findPendingByOrganizationId`.** It returns every unaccepted invitation, expired ones included (`InvitationStore.InvitationRepository.PendingListIncludesExpired`). `findByEmail` likewise ignores expiry.
- **E-mail verification is not stored.** The `users` table (`apps/backend/src/database/drizzle/schemas/users.schema.ts:4-16`) has no `emailVerified` or `emailVerificationToken` column. Values given to `create` or `update` for them are dropped, and every stored user reads them back as null. The model keeps this as part of the table invariant.
- **`update` can move a user.** `update` may change a user's `organizationId`.
- **`updatedAt` in a patch.** A patch's own `updatedAt` has no effect; the row's `updatedAt` always becomes `now`.
- **Missing row on update.** `update` on an id with no row fails: `mapToEntity` receives `undefined`. The model returns `Failure(NotFound)`.
- **Unique constraints.** An insert or update that would break one is the database's unique violation. The model returns `Failure(Conflict)` and leaves the table unchanged.

## Model

| member | source | states |
|---|---|---|
| `Tables.FirstWhere` | apps/backend/src/modules/auth/infrastructure/repositories/organization.repository.ts:15-23 | `where … limit 1`: the result is the first row in table order that matches; it is absent exactly when no row matches |
| `Tables.Filter` | apps/backend/src/modules/auth/infrastructure/repositories/refresh-token.repository.ts:25-32 | a `where` without limit: every returned row is a row of the table and matches the condition |
| `Roles.ParseRole` | apps/backend/src/modules/auth/domain/enums/role.enum.ts:1-6 | a string that parses to a role is exactly that role's enum value |
| `Roles.RoleNamesAreDistinct` | apps/backend/src/modules/auth/domain/enums/role.enum.ts:1-6 | the four role values are pairwise distinct strings |
| `Roles.ParseRoleName` | apps/backend/src/modules/auth/domain/enums/role.enum.ts:1-6 | parsing a role's string value gives back that role |
| `Roles.HigherOrEqualIsReflexive` | apps/backend/src/modules/auth/domain/enums/role.enum.ts:8-17 | every role satisfies `isRoleHigherOrEqual` against itself |
| `Roles.HigherOrEqualIsTransitive` | apps/backend/src/modules/auth/domain/enums/role.enum.ts:8-17 | `isRoleHigherOrEqual` is transitive |
| `Roles.HigherOrEqualIsTotal` | apps/backend/src/modules/auth/domain/enums/role.enum.ts:8-17 | any two roles are comparable |
| `Roles.HigherOrEqualIsAntisymmetric` | apps/backend/src/modules/auth/domain/enums/role.enum.ts:8-17 | two roles each at least the other are the same role, so the hierarchy is a total order |
| `Roles.OwnerTopViewerBottom` | apps/backend/src/modules/auth/domain/enums/role.enum.ts:8-17 | owner is at least every role, every role is at least viewer, and only owner is at least owner |
| `Roles.CanInviteIsAdminOrAbove` | apps/backend/src/modules/auth/domain/enums/role.enum.ts:8-21 | `canInvite` holds exactly for the roles at or above admin in the hierarchy |
| `Roles.ValidInvitationRoles` | apps/backend/src/modules/auth/domain/enums/role.enum.ts:23-25 | `isValidInvitationRole` accepts exactly the role strings other than `'owner'`, and rejects `'owner'` |
| `Users.IndexOf` | apps/backend/src/modules/auth/domain/entities/user.entity.ts:56-61 | `Array.prototype.indexOf`: the first position holding the value, or -1 when it is absent |
| `Users.CreateDefaults` | apps/backend/src/modules/auth/domain/entities/user.entity.ts:16-42 | `User.create` turns each absent optional field into null, keeps each given one, and copies every required field |
| `Users.CreateOfInitOf` | apps/backend/src/modules/auth/domain/entities/user.entity.ts:16-42 | `create` rebuilds any user from its own fields |
| `Users.IndexOfRoleName` | apps/backend/src/modules/auth/domain/entities/user.entity.ts:56-61 | a role's position in `['viewer','agent','admin','owner']` is its rank in `RoleHierarchy` |
| `Users.HasRoleOrHigherAgrees` | apps/backend/src/modules/auth/domain/entities/user.entity.ts:56-61 | `user.hasRoleOrHigher(r)` agrees with `isRoleHigherOrEqual(user.role, r)` for every user and role |
| `Users.HasRoleOrHigherBounds` | apps/backend/src/modules/auth/domain/entities/user.entity.ts:44-61 | every user has at least viewer, and has owner or higher exactly when `isOwner` |
| `Users.OwnerAndAdminAreExact` | apps/backend/src/modules/auth/domain/entities/user.entity.ts:44-50 | `isOwner` and `isAdmin` test the exact role and never both hold |
| `Users.CanInviteIsAdminRank` | apps/backend/src/modules/auth/domain/entities/user.entity.ts:52-61 | `user.canInvite()` is owner-or-admin, is `hasRoleOrHigher('admin')`, and agrees with the enum's `canInvite` |
| `Passwords.Violations` | apps/backend/src/modules/auth/domain/value-objects/password.vo.ts:16-32 | the length message is present iff the password's JavaScript `length` (UTF-16 code units) is below 8; the uppercase message iff it has no A–Z; the number message iff it has no 0–9; the messages appear in rule order; there are at most three |
| `Passwords.Validate` | apps/backend/src/modules/auth/domain/value-objects/password.vo.ts:16-32 | `validate` returns exactly `Violations(password)`: the same messages, in the same order |
| `Passwords.StrongIffAllRulesHold` | apps/backend/src/modules/auth/domain/value-objects/password.vo.ts:34-36 | `isStrong` holds exactly when the password has at least 8 UTF-16 code units, an uppercase letter and a digit |
| `Passwords.EmptyPasswordBreaksEveryRule` | apps/backend/src/modules/auth/domain/value-objects/password.vo.ts:19-29 | the empty password is reported with all three messages, in order |
| `Passwords.CreateSucceedsIffStrong` | apps/backend/src/modules/auth/domain/value-objects/password.vo.ts:8-14 | `Password.create` succeeds iff the password is strong (length in UTF-16 code units) and then holds the text unchanged; otherwise it fails with `Password validation failed: ` and the messages joined by `, ` |
| `Passwords.AstralCharacterCountsTwice` | apps/backend/src/modules/auth/domain/value-objects/password.vo.ts:19 | `Abcde1😀` has 7 characters but a JavaScript length of 8 |
| `Passwords.AstralPasswordIsStrong` | apps/backend/src/modules/auth/domain/value-objects/password.vo.ts:16-36 | so `Abcde1😀` passes every rule and is strong |
| `Passwords.Password.ToString` | apps/backend/src/modules/auth/domain/value-objects/password.vo.ts:42-44 | the rendering is eight asterisks |
| `Passwords.ToStringHidesValue` | apps/backend/src/modules/auth/domain/value-objects/password.vo.ts:42-44 | any two passwords render identically, so the rendering reveals nothing of the value |
| `JsText.Utf16Length` | apps/backend/src/modules/auth/domain/value-objects/password.vo.ts:19 | `String.prototype.length` lies between the number of characters and twice that number |
| `JsText.Utf16LengthOfConcat` | apps/backend/src/modules/auth/domain/value-objects/password.vo.ts:19 | the length of a concatenation is the sum of the lengths |
| `JsText.Utf16LengthOfBmp` | apps/backend/src/modules/auth/domain/value-objects/password.vo.ts:19 | text with no character outside the Basic Multilingual Plane has a length equal to its number of characters |
| `JsText.NatToDecimal` | apps/backend/src/modules/auth/domain/entities/organization.entity.ts:48 | a safe-integer number in a template literal renders as a nonempty string of digits with no leading zero |
| `JsText.TrimStart` | apps/backend/src/modules/auth/domain/entities/organization.entity.ts:41 | leading-whitespace removal: only whitespace is dropped, and the result does not start with whitespace |
| `JsText.LeadingDigits` | apps/backend/src/modules/auth/infrastructure/services/password-hashing.service.ts:24 | the digits `parseInt` reads: a digit-only prefix of the input that stops at the first non-digit |
| `JsText.ParseIntReadsUnsigned` | apps/backend/src/modules/auth/infrastructure/services/password-hashing.service.ts:24 | `parseInt` skips leading whitespace and reads the value of the longest digit run, ignoring what follows it |
| `JsText.ParseIntReadsSigned` | apps/backend/src/modules/auth/infrastructure/services/password-hashing.service.ts:24 | `parseInt` honours one leading `-` or `+` after the whitespace |
| `JsText.ParseIntOfDecimal` | apps/backend/src/modules/auth/infrastructure/services/password-hashing.service.ts:24 | `parseInt` reads back every integer from its decimal rendering |
| `JsText.Split` | apps/backend/src/modules/auth/infrastructure/services/password-hashing.service.ts:22 | `split` yields one more part than there are separators, and no part contains the separator |
| `JsText.JoinSplit` | apps/backend/src/modules/auth/infrastructure/services/password-hashing.service.ts:22 | joining the parts of `split` with the separator gives back the string |
| `JsText.SplitAtFirst` | apps/backend/src/modules/auth/infrastructure/services/password-hashing.service.ts:22 | the text before the first separator is the first part of `split` |
| `PasswordHashing.GetRounds` | apps/backend/src/modules/auth/infrastructure/services/password-hashing.service.ts:21-25 | a hash with fewer than two `$` has fewer than three fields and reads as cost 0 |
| `PasswordHashing.NoCostFieldNeedsRehash` | apps/backend/src/modules/auth/infrastructure/services/password-hashing.service.ts:16-25 | such a hash always needs a re-hash |
| `PasswordHashing.CostIsReadBack` | apps/backend/src/modules/auth/infrastructure/services/password-hashing.service.ts:16-25 | for `$<version>$<cost>$<rest>` with any nonempty run of cost digits, leading zeros included, `getRounds` returns the value of those digits, and `needsRehash` holds iff that value is below 12 |
| `PasswordHashing.NonNumericCostNeedsNoRehash` | apps/backend/src/modules/auth/infrastructure/services/password-hashing.service.ts:16-25 | a cost field that does not begin like a number parses to NaN, and NaN never asks for a re-hash |
| `PasswordHashing.CurrentCostNeedsNoRehash` | apps/backend/src/modules/auth/infrastructure/services/password-hashing.service.ts:6-25 | a hash made at cost 12 needs no re-hash |
| `PasswordHashing.LowerCostNeedsRehash` | apps/backend/src/modules/auth/infrastructure/services/password-hashing.service.ts:6-25 | a hash made at cost 10 needs a re-hash |
| `PasswordHashing.MinimumCostNeedsRehash` | apps/backend/src/modules/auth/infrastructure/services/password-hashing.service.ts:6-25 | a hash at the lowest bcrypt cost, written `04`, needs a re-hash |
| `Organizations.CreateDefaults` | apps/backend/src/modules/auth/domain/entities/organization.entity.ts:13-33 | `Organization.create` defaults the slug to null, the retention to 730 days and enabled, and the settings to `{}`; given values are kept |
| `Organizations.CreateOfInitOf` | apps/backend/src/modules/auth/domain/entities/organization.entity.ts:13-33 | `create` rebuilds any organization from its own fields |
| `Organizations.DecomposeKeepsSlug` | apps/backend/src/modules/auth/domain/entities/organization.entity.ts:38 | NFD leaves a string of slug characters unchanged |
| `Organizations.RemoveAccentsConcat` | apps/backend/src/modules/auth/domain/entities/organization.entity.ts:37-39 | lowercasing, NFD and mark removal work character by character, so they distribute over concatenation |
| `Organizations.Latin1DecompositionShape` | apps/backend/src/modules/auth/domain/entities/organization.entity.ts:38 | every Latin-1 accented lowercase letter decomposes into a base letter a–z followed by one combining mark |
| `Organizations.RemoveAccentsOfLetter` | apps/backend/src/modules/auth/domain/entities/organization.entity.ts:37-39 | an accented Latin-1 letter of either case becomes its base letter |
| `Organizations.RemoveAccentsOfOther` | apps/backend/src/modules/auth/domain/entities/organization.entity.ts:37-39 | any other character that is not a combining mark is only lowercased |
| `Organizations.RemoveAccentsOfUnaccented` | apps/backend/src/modules/auth/domain/entities/organization.entity.ts:37-39 | text made only of characters below U+00C0 loses nothing to accent removal: it is only lowercased |
| `Organizations.KeepSlugChars` | apps/backend/src/modules/auth/domain/entities/organization.entity.ts:40 | what `[^a-z0-9\s-]` removal leaves holds only a–z, 0–9, whitespace and `-` |
| `Organizations.TrimEnd` | apps/backend/src/modules/auth/domain/entities/organization.entity.ts:41 | trailing trim keeps a prefix that does not end in whitespace, and everything it drops is whitespace |
| `Organizations.Trim` | apps/backend/src/modules/auth/domain/entities/organization.entity.ts:41 | trimming introduces no character that was not in the input |
| `Organizations.TrimEndDropsWhiteSpace` | apps/backend/src/modules/auth/domain/entities/organization.entity.ts:41 | trailing trim leaves a prefix and drops only whitespace |
| `Organizations.TrimStartDropsWhiteSpace` | apps/backend/src/modules/auth/domain/entities/organization.entity.ts:41 | leading trim leaves a suffix and drops only whitespace |
| `Organizations.TrimIsSlice` | apps/backend/src/modules/auth/domain/entities/organization.entity.ts:41 | `trim` returns a slice of its input with only whitespace before and after it |
| `Organizations.TrimEndsAreNotWhiteSpace` | apps/backend/src/modules/auth/domain/entities/organization.entity.ts:41 | what `trim` returns neither starts nor ends with whitespace |
| `Organizations.DropWhile` | apps/backend/src/modules/auth/domain/entities/organization.entity.ts:41 | what is left after dropping a leading run starts outside the run and holds only characters of the input |
| `Organizations.DropWhileDropsRun` | apps/backend/src/modules/auth/domain/entities/organization.entity.ts:42-43 | dropping a leading run leaves a suffix of the input, and every dropped character is in the run's class |
| `Organizations.ReplaceRuns` | apps/backend/src/modules/auth/domain/entities/organization.entity.ts:42-43 | a global `/x+/` replacement: the result is empty iff the input is; its first character is the replacement iff the input starts with a class character; each character is the replacement or an input character outside the class; when the replacement is itself in the class, it is never doubled |
| `Organizations.Hyphenate` | apps/backend/src/modules/auth/domain/entities/organization.entity.ts:41-42 | after trimming, turning whitespace runs into `-` leaves only a–z, 0–9 and `-` |
| `Organizations.CollapseHyphens` | apps/backend/src/modules/auth/domain/entities/organization.entity.ts:43 | after `-+` becomes `-`, no two hyphens are adjacent |
| `Organizations.GenerateSlug` | apps/backend/src/modules/auth/domain/entities/organization.entity.ts:35-44 | every generated slug consists of a–z, 0–9 and `-`, with no `--` |
| `Organizations.LowerCaseKeepsSlug` | apps/backend/src/modules/auth/domain/entities/organization.entity.ts:37 | lowercasing leaves slug characters unchanged |
| `Organizations.ReplaceRunsKeepsOthers` | apps/backend/src/modules/auth/domain/entities/organization.entity.ts:42-43 | every character that is neither in the class nor the replacement survives the replacement, in order |
| `Organizations.TrimKeepsSlug` | apps/backend/src/modules/auth/domain/entities/organization.entity.ts:41 | trimming leaves a string of slug characters unchanged |
| `Organizations.ReplaceRunsKeeps` | apps/backend/src/modules/auth/domain/entities/organization.entity.ts:42-43 | a run replacement changes nothing when every run is already a single replacement character |
| `Organizations.SlugIsFixpoint` | apps/backend/src/modules/auth/domain/entities/organization.entity.ts:35-44 | a string that already has the slug shape is its own slug |
| `Organizations.GenerateSlugIdempotent` | apps/backend/src/modules/auth/domain/entities/organization.entity.ts:35-44 | generating a slug from a slug gives it back unchanged |
| `Organizations.UniqueSlugWithoutSuffix` | apps/backend/src/modules/auth/domain/entities/organization.entity.ts:46-49 | the base slug is returned exactly when the suffix is absent or zero |
| `Organizations.UniqueSlugParsesBack` | apps/backend/src/modules/auth/domain/entities/organization.entity.ts:46-49 | any non-zero safe-integer suffix `k`, negative ones included, gives `base-` followed by text that `parseInt` reads as `k` |
| `Organizations.UniqueSlugIsSlugChars` | apps/backend/src/modules/auth/domain/entities/organization.entity.ts:46-49 | a positive safe-integer suffix keeps the slug within `[a-z0-9-]` |
| `Organizations.UniqueSlugOfNegativeSuffix` | apps/backend/src/modules/auth/domain/entities/organization.entity.ts:46-49 | a negative suffix gives `base--` and digits, so the result holds a doubled hyphen |
| `Organizations.ExampleLeadingHyphenKept` | apps/backend/src/modules/auth/domain/entities/organization.entity.ts:35-44 | `trim` does not remove hyphens, so `-acme` keeps its leading `-` |
| `SlugExamples.CafeDejaVu` | apps/backend/src/modules/auth/domain/entities/organization.entity.ts:35-44 | `Café Déjà Vu!` becomes `cafe-deja-vu` |
| `Invitations.CreateDefaults` | apps/backend/src/modules/auth/domain/entities/invitation.entity.ts:14-36 | `Invitation.create` defaults the inviter and the acceptance time to null; a new unaccepted invitation is pending exactly until its expiry; its role is never owner |
| `Invitations.CreateOfInitOf` | apps/backend/src/modules/auth/domain/entities/invitation.entity.ts:14-36 | `create` rebuilds any invitation from its own fields |
| `Invitations.PendingIffLiveAndUnaccepted` | apps/backend/src/modules/auth/domain/entities/invitation.entity.ts:38-52 | `canBeAccepted` holds iff `acceptedAt` is null and now ≤ `expiresAt`; an accepted invitation can never be accepted |
| `Invitations.ExpiryIsMonotone` | apps/backend/src/modules/auth/domain/entities/invitation.entity.ts:38-48 | once expired, always expired; pending later means pending earlier |
| `Invitations.InvitationRoleIsValid` | apps/backend/src/modules/auth/domain/entities/invitation.entity.ts:6 | an invitation's role string always passes `isValidInvitationRole` |
| `RefreshTokens.CreateDefaults` | apps/backend/src/modules/auth/domain/entities/refresh-token.entity.ts:12-30 | `RefreshToken.create` defaults the client address and user agent to null and copies every other field |
| `RefreshTokens.CreateOfInitOf` | apps/backend/src/modules/auth/domain/entities/refresh-token.entity.ts:12-30 | `create` rebuilds any token from its own fields |
| `RefreshTokens.ValidIffNotPastExpiry` | apps/backend/src/modules/auth/domain/entities/refresh-token.entity.ts:32-38 | `isValid` holds iff now ≤ `expiresAt`: valid at the expiry instant, invalid one millisecond later |
| `RefreshTokens.ValidityIsMonotone` | apps/backend/src/modules/auth/domain/entities/refresh-token.entity.ts:32-38 | valid later means valid earlier; expired earlier means expired later |
| `OrganizationStore.PatchedChangesOnlyDefinedFields` | apps/backend/src/modules/auth/infrastructure/repositories/organization.repository.ts:56-64 | an organization update sets every defined property (name, slug, retention days, retention flag, settings) to its given value and keeps every undefined one; it keeps id and creation time, sets `updatedAt` to now, and ignores a given `updatedAt` |
| `OrganizationStore.PatchedIsIdempotent` | apps/backend/src/modules/auth/infrastructure/repositories/organization.repository.ts:56-64 | applying the same update twice at the same instant is applying it once |
| `OrganizationStore.OrganizationRepository.FindById` | apps/backend/src/modules/auth/infrastructure/repositories/organization.repository.ts:15-23 | the result is a row with that id; it is null iff no row has that id |
| `OrganizationStore.OrganizationRepository.FindBySlug` | apps/backend/src/modules/auth/infrastructure/repositories/organization.repository.ts:25-33 | the result is a row with that slug; it is null iff no row has that slug |
| `OrganizationStore.OrganizationRepository.SlugExists` | apps/backend/src/modules/auth/infrastructure/repositories/organization.repository.ts:79-87 | true iff some row carries the slug |
| `OrganizationStore.OrganizationRepository.FindsEveryRow` | apps/backend/src/modules/auth/infrastructure/repositories/organization.repository.ts:15-33 | in a valid table, every row is what `findById` returns for its id and what `findBySlug` returns for its slug |
| `OrganizationStore.OrganizationRepository.SlugExistsIffFound` | apps/backend/src/modules/auth/infrastructure/repositories/organization.repository.ts:25-87 | `slugExists` is true iff `findBySlug` finds an organization |
| `OrganizationStore.OrganizationRepository.Create` | apps/backend/src/modules/auth/infrastructure/repositories/organization.repository.ts:35-50 | fails with a conflict exactly when the id or the slug is taken, leaving the table unchanged; otherwise appends the row stamped `now`, which `findById` then returns; the unique constraints hold afterwards |
| `OrganizationStore.OrganizationRepository.Update` | apps/backend/src/modules/auth/infrastructure/repositories/organization.repository.ts:52-73 | not found iff no row has the id; conflict iff the new slug belongs to another row; otherwise that one row is replaced by its patched version and every other row is unchanged |
| `OrganizationStore.OrganizationRepository.Delete` | apps/backend/src/modules/auth/infrastructure/repositories/organization.repository.ts:75-77 | afterwards no row has the id; exactly that row is removed, and the rest keep their order; a missing id changes nothing |
| `OrganizationStore.OrganizationRepository.FindAvailableSlug` | apps/backend/src/modules/auth/infrastructure/repositories/organization.repository.ts:89-107 | returns the base slug if it is free; else `base-n` for the least free n in 2..99; else `base-<now>`; at most 99 `slugExists` probes |
| `OrganizationStoreExamples.AcmeExample` | apps/backend/src/modules/auth/infrastructure/repositories/organization.repository.ts:89-107 | with `acme` and `acme-2` to `acme-5` taken, the available slug is `acme-6` |
| `RefreshTokenStore.KeptIffValid` | apps/backend/src/modules/auth/infrastructure/repositories/refresh-token.repository.ts:57-61 | the rows `deleteExpired` keeps are exactly the tokens `isValid` accepts at the same instant |
| `RefreshTokenStore.Oldest` | apps/backend/src/modules/auth/infrastructure/repositories/refresh-token.repository.ts:72-78 | `order by createdAt limit 1`: absent iff there are no rows; otherwise a row with no later creation time than any other |
| `RefreshTokenStore.RefreshTokenRepository.FindByToken` | apps/backend/src/modules/auth/infrastructure/repositories/refresh-token.repository.ts:15-23 | the result is a row with that token; it is null iff no row has it |
| `RefreshTokenStore.RefreshTokenRepository.FindByUserId` | apps/backend/src/modules/auth/infrastructure/repositories/refresh-token.repository.ts:25-32 | every returned token is a row of the table and belongs to the user |
| `RefreshTokenStore.RefreshTokenRepository.FindByUserIdIsComplete` | apps/backend/src/modules/auth/infrastructure/repositories/refresh-token.repository.ts:25-32 | every token of the user is returned |
| `RefreshTokenStore.RefreshTokenRepository.FindsEveryToken` | apps/backend/src/modules/auth/infrastructure/repositories/refresh-token.repository.ts:15-23 | in a valid table, every row is what `findByToken` returns for its token |
| `RefreshTokenStore.RefreshTokenRepository.CountByUserId` | apps/backend/src/modules/auth/infrastructure/repositories/refresh-token.repository.ts:63-70 | the count is at most the table size, and it is 0 iff the user holds no token |
| `RefreshTokenStore.RefreshTokenRepository.OldestByUserId` | apps/backend/src/modules/auth/infrastructure/repositories/refresh-token.repository.ts:72-78 | absent iff the user's count is 0; otherwise one of the user's tokens, created no later than any other of theirs |
| `RefreshTokenStore.RefreshTokenRepository.Create` | apps/backend/src/modules/auth/infrastructure/repositories/refresh-token.repository.ts:34-47 | fails with a conflict exactly when the id or the token is taken; otherwise appends the row stamped `now`, which `findByToken` then returns, and the user's count goes up by one |
| `RefreshTokenStore.RefreshTokenRepository.Delete` | apps/backend/src/modules/auth/infrastructure/repositories/refresh-token.repository.ts:49-51 | afterwards no row has the token; exactly that row is removed; a missing token changes nothing |
| `RefreshTokenStore.RefreshTokenRepository.DeleteByUserId` | apps/backend/src/modules/auth/infrastructure/repositories/refresh-token.repository.ts:53-55 | the other users' rows stay in order, and the user's count becomes 0 |
| `RefreshTokenStore.RefreshTokenRepository.DeleteExpired` | apps/backend/src/modules/auth/infrastructure/repositories/refresh-token.repository.ts:57-61 | the remaining rows are the old rows with `expiresAt` not before now; every remaining token is valid; every valid token is kept; running it again removes nothing |
| `RefreshTokenStore.RefreshTokenRepository.DeleteOldestByUserId` | apps/backend/src/modules/auth/infrastructure/repositories/refresh-token.repository.ts:72-83 | with no token, nothing changes; otherwise exactly the user's oldest row is removed and the user's count drops by one; no other user's tokens change |
| `InvitationStore.AcceptedIsFinal` | apps/backend/src/modules/auth/infrastructure/repositories/invitation.repository.ts:72-77 | after `markAsAccepted` an invitation is accepted and can never be accepted again; a second acceptance only moves `acceptedAt`; id and token are kept |
| `InvitationStore.KeptIffAcceptedOrPending` | apps/backend/src/modules/auth/infrastructure/repositories/invitation.repository.ts:83-89 | `deleteExpired` keeps exactly the invitations that are accepted or still pending |
| `InvitationStore.InvitationRepository.FindByToken` | apps/backend/src/modules/auth/infrastructure/repositories/invitation.repository.ts:15-23 | the result is a row with that token; it is null iff no row has it |
| `InvitationStore.InvitationRepository.FindByEmail` | apps/backend/src/modules/auth/infrastructure/repositories/invitation.repository.ts:25-39 | the result is an unaccepted invitation of that address to that organization; it is null iff there is none |
| `InvitationStore.InvitationRepository.FindPendingByOrganizationId` | apps/backend/src/modules/auth/infrastructure/repositories/invitation.repository.ts:41-53 | every returned invitation is an unaccepted row of that organization |
| `InvitationStore.InvitationRepository.FindsEveryToken` | apps/backend/src/modules/auth/infrastructure/repositories/invitation.repository.ts:15-23 | in a valid table, every row is what `findByToken` returns for its token |
| `InvitationStore.InvitationRepository.FindByEmailIgnoresExpiry` | apps/backend/src/modules/auth/infrastructure/repositories/invitation.repository.ts:25-39 | an expired but unaccepted invitation is still found by `findByEmail` |
| `InvitationStore.InvitationRepository.PendingListIncludesExpired` | apps/backend/src/modules/auth/infrastructure/repositories/invitation.repository.ts:41-53 | every unaccepted invitation is listed, even an expired one that the entity does not call pending |
| `InvitationStore.InvitationRepository.Create` | apps/backend/src/modules/auth/infrastructure/repositories/invitation.repository.ts:55-70 | fails with a conflict exactly when the id or the token is taken; otherwise appends the row stamped `now`, which `findByToken` then returns |
| `InvitationStore.InvitationRepository.MarkAsAccepted` | apps/backend/src/modules/auth/infrastructure/repositories/invitation.repository.ts:72-77 | the row with the token gets `acceptedAt = now`, whatever its state; every other row is unchanged; a missing token changes nothing |
| `InvitationStore.InvitationRepository.Delete` | apps/backend/src/modules/auth/infrastructure/repositories/invitation.repository.ts:79-81 | afterwards no row has the id; exactly that row is removed; a missing id changes nothing |
| `InvitationStore.InvitationRepository.DeleteExpired` | apps/backend/src/modules/auth/infrastructure/repositories/invitation.repository.ts:83-89 | the remaining rows are the old rows without `expiresAt < now AND acceptedAt IS NULL`; every accepted or pending row is kept, every survivor is accepted or pending, and a second sweep at the same instant removes nothing |
| `UserStore.PatchedChangesOnlyStoredFields` | apps/backend/src/modules/auth/infrastructure/repositories/user.repository.ts:62-84 | a user update sets every defined property that has a column (email, password hash, name, role, organization, last login) to its given value and keeps every undefined one; it keeps id and creation time and sets `updatedAt` to now; the verification fields and a given `updatedAt` have no effect |
| `UserStore.LoggedInIsPatch` | apps/backend/src/modules/auth/infrastructure/repositories/user.repository.ts:100-105 | recording a login is the update that sets only `lastLoginAt` to now |
| `UserStore.UserRepository.FindById` | apps/backend/src/modules/auth/infrastructure/repositories/user.repository.ts:15-23 | the result is a user with that id; it is null iff there is none |
| `UserStore.UserRepository.FindByEmail` | apps/backend/src/modules/auth/infrastructure/repositories/user.repository.ts:25-33 | the result is a user with that address; it is null iff there is none |
| `UserStore.UserRepository.FindByOrganizationId` | apps/backend/src/modules/auth/infrastructure/repositories/user.repository.ts:35-42 | every returned user is a row of the table and belongs to the organization |
| `UserStore.UserRepository.FindByOrganizationIdIsComplete` | apps/backend/src/modules/auth/infrastructure/repositories/user.repository.ts:35-42 | every member of the organization is returned |
| `UserStore.UserRepository.Exists` | apps/backend/src/modules/auth/infrastructure/repositories/user.repository.ts:90-98 | true iff some user has the address |
| `UserStore.UserRepository.ExistsIffFound` | apps/backend/src/modules/auth/infrastructure/repositories/user.repository.ts:25-98 | `exists` is true iff `findByEmail` finds a user |
| `UserStore.UserRepository.FindsEveryRow` | apps/backend/src/modules/auth/infrastructure/repositories/user.repository.ts:15-33 | in a valid table, every row is what `findById` and `findByEmail` return for it, and it reads back no verification state |
| `UserStore.UserRepository.Create` | apps/backend/src/modules/auth/infrastructure/repositories/user.repository.ts:44-60 | fails with a conflict exactly when the id or the address is taken; otherwise appends the row stamped `now` with null verification fields |
| `UserStore.UserRepository.Update` | apps/backend/src/modules/auth/infrastructure/repositories/user.repository.ts:62-84 | not found iff no user has the id; conflict iff the new address belongs to another user; otherwise that one row is replaced by its patched version and every other row is unchanged |
| `UserStore.UserRepository.Delete` | apps/backend/src/modules/auth/infrastructure/repositories/user.repository.ts:86-88 | afterwards no user has the id; exactly that row is removed; a missing id changes nothing |
| `UserStore.UserRepository.UpdateLastLoginAt` | apps/backend/src/modules/auth/infrastructure/repositories/user.repository.ts:100-105 | only the user with the id gets `lastLoginAt` and `updatedAt` set to now; every other row is unchanged |

## Left out

- Password hashing and comparison: `bcrypt.hash` and `bcrypt.compare` are foreign code. Only reading the cost factor back is modelled.
- Token generation and uuid generation: `randomBytes` and the database's `defaultRandom` are randomness. Generated ids and tokens are parameters.
- Unicode:
  - `toLowerCase` is modelled for ASCII and the Latin-1 capitals;
  - `normalize('NFD')` is modelled for the Latin-1 accented lowercase letters;
  - every other character passes through unchanged;
  - `\s` and `trim` use the JavaScript whitespace set of the Basic Multilingual Plane.
- JavaScript numbers: `parseInt` is modelled on unbounded integers. Rounding of huge digit strings to a double and non-integer `Date.now()` values are not modelled.
- Storage runtime: SQL, the Drizzle query builder, `async`/`await`, connection handling and errors other than a unique violation or a missing row are not modelled.
- Foreign keys are not modelled: `on delete cascade` from organizations and users, and the `references` checks on `organizationId`, `userId` and `invitedBy`.
- Concurrency between requests is not modelled.
- UpdateLastLoginAt: the source calls `new Date()` twice, once for `lastLoginAt` and once for `updatedAt`, so the two can differ by the time between the calls; the model gives both the same `now`.
- GenerateUniqueSlug: the suffix is modelled as an integer. A NaN or fractional `number` suffix, which a template literal renders as `NaN` or with a decimal point, is not modelled. The suffix is also written with all its digits (`NatToDecimal`). JavaScript's `Number.prototype.toString` writes the shortest digits that read back to the same double above 2^53, and uses exponent form (`1e+21`) from 10^21 up. Neither is modelled. The callers pass 2 to 99 or `Date.now()`, both safe integers.
- UniqueSlugParsesBack: proved for every integer of the model. The source agrees only for suffixes within `Number.MAX_SAFE_INTEGER` (2^53 - 1): from 10^21 the suffix renders as `1e+21`, which `parseInt` reads as 1.
- UniqueSlugIsSlugChars: proved for every positive integer of the model. The source agrees only below 10^21, where the rendering has no `e+`.
- NatToDecimal: the plain digit rendering is JavaScript's only for safe integers; see the GenerateUniqueSlug line.
- `organizations.settings` is `jsonb`; its values are modelled as strings.
- Row order: the database returns rows in an unspecified order. The model takes table (insertion) order. For `deleteOldestByUserId`, ties on `createdAt` go to the first row in that order.
- Out of scope: the controllers, the refresh-token strategy, the token-generation service, the repository interfaces (declarations only), the module wiring, the configuration and the frontend.
- `Password.getValue` and the entity predicates (`isExpired`, `isPending`, `isOwner`, …) have no contract of their own. What they return is stated by the lemmas listed above.
