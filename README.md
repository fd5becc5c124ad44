# crm-cli-app contact records, modelled in Dafny

crm-cli-app is a small customer-record manager. It has two parts:

- `crm_cli_app/user.py`: builds a contact record (`User`) from an email, a first and last name, a phone number and a postal address. It normalises each field and validates it with hand-written character scans.
- `crm_cli_app/database.py`: keeps the records as documents in an embedded document database. It offers create, read, update and delete, keyed by email.

This project models both parts and proves what they promise.

- `results.dfy` (module `Results`): `Outcome`, `Result` and `Option`. A check that raises `ValueError` in the program returns the error variant here.
- `text.dfy` (module `Text`): the Python string operations the checks use, on ASCII: `str.lower`, `str.title`, `str.strip`, counting, `index`-style scans, and `list.remove` on a list of characters.
- `collapse.dfy` (module `Collapse`): a reference definition of what the address reformatting loop computes, and the facts about it.
- `users.dfy` (module `Users`): the checks. Email, name, phone and address each get a check. `check_email` and `check_and_reformat_address` are methods that keep the source's loops and are proved equal to specification functions. The record constructor is `Create`, proved equal to `NewUser`; then come `to_dict` and `__str__`.
- `database.dfy` (module `Database`): the store is a class `Store`. It holds a list of `(id, document)` entries in insertion order and the next id. The caller's update dictionary, which `update_user` rewrites in place, is the class `Patch`.

Where the code promises more in its messages and comments than it does, the model follows the code:

- **Email length limits.** The code accepts at most 63 characters before the `@` and at most 254 after it. `index + 1 > 64` rejects 64, and the backward index counts the `@`. Its error messages (user.py:93, user.py:101) say 64 and 255. See `EmailLengthLimits`.
- **Name checks.** The constructor checks the first name as given, before `title()` and `strip()`. It checks the last name after normalisation, and only when that is non-empty. `update_user` checks both names after normalisation.
- **Title case.** `str.title` starts a new word after any non-letter, not only after whitespace, so `o'connor` becomes `O'Connor`.
- **Address reformatting.** At each pair of equal adjacent special characters, the loop removes the *leftmost* copy of that character still in the working list. So:
  - a run that holds the first copies of its character shrinks to one copy, whatever else the address holds (`CollapseRun`), and so do several such runs together (`CollapseRuns`): `"1223   main-Street... of O,,,Connor"` becomes `"1223 main-Street. of O,Connor"` (`AddressRunsShrink`);
  - `"ab..cd..ef"` becomes `"abcd..ef"`, which still holds a pair (`CollapseSecondPairSurvives`);
  - reformatting twice can differ from reformatting once (`CollapseNotIdempotent`).
  
  The comment at user.py:148 aims at removing doubled special characters, yet the result can still hold such a pair, and reformatting twice can differ from reformatting once.

## Model

| member | source | states |
|---|---|---|
| Users.CheckEmail | crm_cli_app/user.py:50-101 | runs the email checks in the source's order, with its scans, and returns exactly the verdict of the specification `EmailCheck` |
| Users.DomainChars | crm_cli_app/user.py:57-61 | the backward scan to the `@` collects the domain, back to front |
| Users.TldContent | crm_cli_app/user.py:78-82 | the backward scan to the last `.` collects as many characters as the top-level domain has |
| Users.LocalEnd | crm_cli_app/user.py:88-90 | the forward scan stops at the length of the part before the `@` |
| Users.DomainStart | crm_cli_app/user.py:96-98 | the negative index where the backward scan stops is minus the domain length minus one, because it counts the `@` |
| Users.EmailAcceptedIff | crm_cli_app/user.py:50-101 | for `local@domain`, the check passes iff all of the following hold: the local part has 1 to 63 characters and does not start with `.`, `-` or `_`; every character is allowed; the domain holds a `.`; at least two characters follow its last `.`; the domain has at most 254 characters |
| Users.EmailNeedsOneAt | crm_cli_app/user.py:52-54 | an accepted email splits as `local@domain`, with no `@` in either part |
| Users.EmailLengthLimits | crm_cli_app/user.py:87-101 | otherwise-valid addresses are accepted with a 63-character local part and a 254-character domain; they are refused with `EmailLocalLength` at 64 and with `EmailDomainLength` at 255 |
| Users.CheckName | crm_cli_app/user.py:103-125 | a name passes iff it has 2 to 40 characters, all letters, spaces, `-` or `'`; the length error comes first |
| Users.NormaliseNameSpec | crm_cli_app/user.py:14-17 | a stored name (`title()` then `strip()`) is titled, has no surrounding whitespace, and is unchanged by normalising again |
| Users.CheckNameIgnoresCase | crm_cli_app/user.py:104-125 | title-casing a name never changes the name check's verdict |
| Users.CheckPhone | crm_cli_app/user.py:127-133 | a phone passes iff it is exactly ten digits; the empty string fails `isdigit` |
| Users.CheckAndReformatAddress | crm_cli_app/user.py:135-155 | checks the length and characters, then runs the removal loop over a working copy; the result equals the specification `AddressCheck` |
| Users.AddressCheckSpec | crm_cli_app/user.py:138-155 | an address is accepted iff it has 10 to 100 allowed characters; on success, letters and digits keep their counts, and every other character loses as many copies as it has adjacent pairs |
| Users.AddressMayShrinkBelowMinimum | crm_cli_app/user.py:138-155 | the result is not re-checked: the accepted 10-character `"ab........"` becomes `"ab."` |
| Collapse.SurvivorsStep | crm_cli_app/user.py:151-154 | one loop step: at a pair of equal special characters, the working copy holds that character and loses its leftmost copy; elsewhere the copy is unchanged |
| Collapse.CollapsedCount | crm_cli_app/user.py:149-155 | letters and digits are never removed; any other character loses exactly one copy per adjacent pair of it |
| Collapse.CollapsedSubsequence | crm_cli_app/user.py:149-155 | the result is a subsequence of the input |
| Collapse.CollapsedNoPairs | crm_cli_app/user.py:149-155 | an address with no equal adjacent special characters is returned unchanged |
| Collapse.CollapsedNonEmpty | crm_cli_app/user.py:149-155 | the last character is always kept, so a non-empty address stays non-empty |
| Collapse.CollapseSingleRun | crm_cli_app/user.py:149-155 | a run of one special character shrinks to one copy when the run holds the character's first copies and no other pairs exist; nothing else changes |
| Collapse.CollapseRun | crm_cli_app/user.py:149-155 | a run of a special character that holds the character's first copies collapses exactly like a single copy, whatever the rest of the address holds |
| Collapse.CollapseRuns | crm_cli_app/user.py:149-155 | several runs, each of a special character and holding that character's first copies after the text before it, all shrink to one copy together |
| Collapse.CollapseToShrunk | crm_cli_app/user.py:149-155 | when the address with every such run shrunk holds no pair of equal special characters, that shrunk address is the result |
| Collapse.CollapsedSqueezes | crm_cli_app/user.py:149-155 | when every pair's character is absent from what the scan has kept before it, the result is the input with every pair's left character dropped: each run, of any special character, shrinks to one copy |
| Collapse.CollapseThreeRuns | crm_cli_app/user.py:149-155 | three runs of three copies of distinct special characters, each run holding its character's first copies, shrink to one copy each |
| Collapse.CollapseMainStreet | crm_cli_app/test_user.py:120-128 | `"1223   main-Street... of O,,,Connor"` collapses to `"1223 main-Street. of O,Connor"` |
| Collapse.CollapseMainComma | crm_cli_app/user.py:149-155 | `"321   main,,,street"` collapses to `"321 main,street"` |
| Users.AddressRunsShrink | crm_cli_app/test_user.py:120-128 | the address check accepts `"1223   main-Street... of O,,,Connor"` and returns `"1223 main-Street. of O,Connor"` |
| Collapse.CollapseSecondPairSurvives | crm_cli_app/user.py:153-154 | with two separate pairs of one special character among letters and digits, the first pair is erased and the second survives intact |
| Collapse.CollapseNotIdempotent | crm_cli_app/user.py:149-155 | reformatting such an address again removes one more copy |
| Users.Create | crm_cli_app/user.py:8-29 | builds the record field by field, with the source's checks in order; the result equals the specification `NewUser` |
| Users.NewUserNormalForm | crm_cli_app/user.py:8-29 | a built record has a lower-case email that passes its check, and a first name whose raw form passed its check. Both names are normalised (titled, trimmed); the last name is valid or empty. The phone is kept as given, valid or empty. The address is empty exactly when the stripped input is; otherwise it is the checked, reformatted stripped input |
| Users.FirstNameMayBeStoredEmpty | crm_cli_app/user.py:14-15 | the first name is checked before normalising, so a first name of 2 to 40 spaces is accepted and stored empty |
| Users.ToDict | crm_cli_app/user.py:38-46 | the dictionary has exactly the five field names as keys |
| Users.ToDictRoundTrip | crm_cli_app/user.py:38-46 | every field can be read back from the dictionary, so distinct records give distinct dictionaries |
| Users.DescribeLines | crm_cli_app/user.py:31-36 | the description has an email line, a first-name line, and one line per non-empty optional field |
| Users.NewUserSingleLine | crm_cli_app/user.py:8-36 | no field of a built record holds a line break, so its description has one line per field |
| Database.Search | crm_cli_app/database.py:68 | the search is empty iff no document has the email; every document it returns has the email |
| Database.FirstMatch | crm_cli_app/database.py:23 | `get` finds the first document with the email, or none iff no document has it |
| Database.DocsOf | crm_cli_app/database.py:18 | `all` gives every document, in insertion order |
| Database.UpdateByIdAt | crm_cli_app/database.py:55 | updating by an entry's id merges the patch into that entry and changes no other entry |
| Database.RemoveByIdAt | crm_cli_app/database.py:62 | removing by an entry's id drops exactly that entry and keeps the others in order |
| Database.CreateKeepsUniqueEmails | crm_cli_app/database.py:12-14 | creation keeps one document per email |
| Database.DeleteKeepsUniqueEmails | crm_cli_app/database.py:58-62 | deletion keeps one document per email |
| Database.UpdateCanDuplicateEmail | crm_cli_app/database.py:31-55 | the new email of an update is checked for format only: an accepted update can leave two documents with the same email |
| Database.NormalisePatchKeys | crm_cli_app/database.py:29-48 | normalising the patch rewrites values but never adds or drops a key |
| Database.NormalisePatchAccepted | crm_cli_app/database.py:29-52 | a patch is accepted iff its keys are all field names and every value passes its field's check |
| Database.NormalisePatchValues | crm_cli_app/database.py:31-48 | in an accepted patch, every value is replaced by its normal form. The email is lower-cased; names are titled and stripped; the phone is unchanged; the address is stripped and reformatted |
| Database.UnknownKeyReportedLast | crm_cli_app/database.py:50-52 | an unknown key is reported iff there is one and every known key's value passed; an invalid value is reported first |
| Database.CannotClearOptionalField | crm_cli_app/database.py:39-48 | a blank last name, an empty phone or a blank address in a patch is refused |
| Database.EmptyPatchChangesNothing | crm_cli_app/database.py:50-55 | an empty patch is accepted and leaves every document as it was |
| Database.Patch.NormaliseEmail | crm_cli_app/database.py:31-33 | lower-cases the patch's email in place and checks it, as the email step of the specification |
| Database.Patch.NormaliseNameField | crm_cli_app/database.py:35-41 | title-cases and strips a patch name in place and checks the result, as the name step of the specification |
| Database.Patch.CheckPhoneNumber | crm_cli_app/database.py:43-44 | checks the patch's phone as it is, as the phone step of the specification |
| Database.Patch.NormaliseAddress | crm_cli_app/database.py:46-48 | strips the patch's address in place, then checks it and replaces it by its reformatted form, as the address step of the specification |
| Database.Store.constructor | crm_cli_app/database.py:9 | a new store is empty and valid |
| Database.Store.CheckUserDuplicate | crm_cli_app/database.py:67-69 | fails with `Duplicate` iff a stored document has the record's email |
| Database.Store.CheckUserExists | crm_cli_app/database.py:72-74 | fails with `NotFound` iff no stored document has the email |
| Database.Store.CreateUser | crm_cli_app/database.py:12-14 | refused with `Duplicate` and no change when the email is taken. Otherwise it appends exactly the record's dictionary under a fresh id, so reading the store gives the old documents followed by it |
| Database.Store.ReadUsers | crm_cli_app/database.py:17-19 | returns every stored document, in insertion order, and changes nothing |
| Database.Store.UpdateUser | crm_cli_app/database.py:22-55 | with no document for the email: `NotFound`, and neither store nor patch changes. Otherwise the patch ends up normalised. On any error the store is unchanged; on success only the first document with the email takes the patch |
| Database.Store.DeleteUser | crm_cli_app/database.py:58-62 | with no document for the email: `NotFound` and no change. Otherwise it removes the first document with the email and keeps the others in order |

## Left out

- The embedded document database and its JSON file (`db.json`) are replaced by the in-memory entry list of `Store`. Ids start at 1 and grow by one per insertion. `Store.Valid` keeps them increasing.
- The model is ASCII-only. Python's `lower`, `title`, `strip` and `isdigit` also act on non-ASCII characters; here any character outside ASCII is neither a letter nor a digit nor whitespace, and case changes leave it alone.
- A failed check is a distinct error variant, in the order the program checks. The error message texts are not modelled.
- Patch values are strings. A non-string value, which would make `.lower()` or `.strip()` raise in Python, is outside the model.
- Concurrency: the program is single-threaded, and so is the model.
- The test suite is not modelled; its cases are only evidence for the lemmas above.
