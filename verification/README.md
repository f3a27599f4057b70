# Password manager vault controller, modelled in Dafny

This project models the vault-management part of `PasswordManagerApp`, the
Textual terminal application in `app/ui/main_ui.py`. The controller reads six
input fields. It keeps an encrypted vault file of records, and holds one pending
confirmation (`_confirm_state`). It also shows a status line, a table of
decrypted entries, and Confirm/Cancel buttons that appear only while a
confirmation is pending.

Modules:

- `Wrappers` holds `Option`.
- `Cipher` models `encrypt`/`decrypt` of `app/crypto/crypto_utils.py`
  together with the JSON (de)serialisation of an entry. The model is
  symbolic, an ideal authenticated encryption (the guarantee AES-GCM gives,
  NIST SP 800-38D):
  - a sealed record opens under the passphrase it was sealed with, to the
    entry sealed, and under no other passphrase;
  - a record that was not sealed opens under none.

  The salt and nonce drawn from `os.urandom` are a `Coins` parameter.
- `PyText` models Python's `str.strip()` and `int(str)` as the controller
  uses them. `int` accepts optional surrounding white space, an optional sign,
  and ASCII digits with single `_` separators. Its white space is the same set
  `strip()` removes, with one exception: the ASCII information separators
  U+001C to U+001F count as white space for `strip()` but make `int` fail,
  wherever they appear. `int` refuses more than `MaxStrDigits` digits (4300,
  CPython's default limit). Leading zeros count toward the limit and
  underscores do not.
- `Vault` models the vault file: missing, corrupt JSON, or a list of records.
  It defines what a load shows and counts, and the duplicate-service test.
- `MainUi` models the form and `get_input_values`, `validate_port`, and the
  class `PasswordManagerApp`:
  - its fields are the form, the vault file, the pending slot, the status,
    the table and the buttons' visibility;
  - it has one method per handler.
  - `Valid()` states that the buttons are visible exactly while something is
    pending. Every handler preserves it.

The `uuid4` confirmation id is a parameter, because it is never checked.

## Model

| member | source | states |
|---|---|---|
| Cipher.Encrypt | app/crypto/crypto_utils.py:17-27 | a sealed record decrypts under its passphrase to exactly the entry sealed, and under every other passphrase to nothing |
| Cipher.Decrypt | app/crypto/crypto_utils.py:29-35 | decryption succeeds only on a sealed record and only with the passphrase it was sealed under |
| Cipher.OpensOnlyIfEncrypted | app/crypto/crypto_utils.py:29-35 | authenticity: any record that opens is the encryption, under that passphrase, of the entry it opens to |
| PyText.Strip | app/ui/main_ui.py:158-167 | `strip()` leaves no white space at either end of the result |
| PyText.StripRemovesOnlyPadding | app/ui/main_ui.py:158-167 | what `strip()` keeps is a contiguous piece of the input, and everything it removed before and after that piece is white space |
| PyText.StripBlank | app/ui/main_ui.py:158-167 | `strip()` gives the empty string exactly when the input is all white space, which is when the `or` default applies |
| PyText.StripTrimmed | app/ui/main_ui.py:158-167 | a string with no white space at either end is left unchanged |
| PyText.StripIdempotent | app/ui/main_ui.py:158-167 | stripping twice is the same as stripping once |
| PyText.ParseIntBounded | app/ui/main_ui.py:188 | every integer `int` returns has fewer than 4301 digits: its magnitude is below 10^4300 |
| PyText.ParseIntBlank | app/ui/main_ui.py:188 | `int` of an empty or all-white-space string fails |
| PyText.ParseDigitString | app/ui/main_ui.py:188 | `int` of a non-empty run of ASCII digits is its base-10 value when the run has at most 4300 digits, leading zeros included, and fails when it has more |
| PyText.ParseNegatedDigitString | app/ui/main_ui.py:188 | `int` of `-` followed by a run of ASCII digits is minus its base-10 value when the run has at most 4300 digits, and fails when it has more |
| PyText.ParseDecimal | app/ui/main_ui.py:188 | `int(str(n)) == n` for every natural number `n` whose decimal form has at most 4300 digits; for a longer one `int` fails |
| PyText.ParseNegatedDecimal | app/ui/main_ui.py:188 | `int("-" + str(n)) == -n` when `str(n)` has at most 4300 digits; for a longer one `int` fails |
| MainUi.FormMaster | app/ui/main_ui.py:161 | the master password as `get_input_values` reads it is stripped at both ends |
| MainUi.GetInputValues | app/ui/main_ui.py:158-167 | every returned field is stripped at both ends, and the peer address and peer port are never empty |
| MainUi.GetInputValuesFields | app/ui/main_ui.py:158-167 | each field is the stripped input; master, service and password come out empty exactly when typed blank; a blank peer address or port becomes `127.0.0.1` or `65432` |
| MainUi.GetInputValuesFixpoint | app/ui/main_ui.py:158-167 | putting the returned values back into the form returns the same values |
| MainUi.ValidatePort | app/ui/main_ui.py:185-195 | a port is returned exactly when the string parses to an integer in 1..65535, and it is that integer; otherwise an error status results, "not a number" exactly when the parse fails |
| MainUi.ValidatePortDecimal | app/ui/main_ui.py:185-195 | a decimal port of more than 4300 digits is "not a number"; otherwise it is accepted exactly in 1..65535 and reported as out of range outside it, and a negative one is reported as out of range |
| MainUi.LeadingZerosOverLimit | app/ui/main_ui.py:185-195 | 4300 zeros followed by `1` is "not a number", although its value is 1: leading zeros count toward the digit limit |
| MainUi.InfoSeparatorNotSkipped | app/ui/main_ui.py:185-195 | a port string that starts with U+001C is "not a number", although `strip()` would remove that character |
| MainUi.DefaultPeerPortValid | app/ui/main_ui.py:185-195 | the default peer port `65432` passes the check as port 65432 |
| MainUi.PasswordManagerApp.constructor | app/ui/main_ui.py:93-96 | the app starts with an empty form, nothing pending, buttons hidden, an empty table, "Status: Ready" and the vault file untouched |
| MainUi.PasswordManagerApp.CheckServiceExists | app/ui/main_ui.py:197-206 | true exactly when some record opens, under the master password currently in the form as `get_input_values` strips it, to an entry for the service; records that fail to open are skipped |
| MainUi.PasswordManagerApp.HandleSaveEntry | app/ui/main_ui.py:236-276 | checks in this order: service and password present, then master length ≥ 8, then a readable vault; each rejection changes only the status. A duplicate is parked as a pending save with the vault unchanged. Otherwise exactly one encryption of the entry is appended after the unchanged old records and the master field is cleared |
| MainUi.PasswordManagerApp.HandleClearVault | app/ui/main_ui.py:278-289 | with no vault file only the status changes; otherwise a clear is pending (replacing whatever was) and the vault is untouched |
| MainUi.PasswordManagerApp.HandleConfirm | app/ui/main_ui.py:291-329 | afterwards nothing is pending and the buttons are hidden. With nothing pending: only an error status. A pending save appends exactly one record, sealed under the master in the form at confirm time, stripped, with no length re-check, after the unchanged old records (the duplicate is kept), unless the vault is corrupt. A pending clear leaves an empty vault and an empty table |
| MainUi.PasswordManagerApp.HandleCancel | app/ui/main_ui.py:331-335 | nothing pending, buttons hidden, vault, form and table unchanged |
| MainUi.LoadStatus | app/ui/main_ui.py:365-370 | the load status is "all failed" exactly when every record failed, "with errors" exactly when some but not all failed, and "loaded" exactly when none failed in a non-empty vault |
| MainUi.PasswordManagerApp.AddDecryptedRows | app/ui/main_ui.py:358-364 | the loop appends to the table exactly the entries that open, in vault order, returns the number of records that fail, and changes nothing else |
| MainUi.PasswordManagerApp.HandleLoadVault | app/ui/main_ui.py:337-371 | after the master-present, length and vault-exists checks (each changes only the status), the table holds exactly the entries that open, in vault order. Shown rows plus failures equal the vault length. The status is "all failed" exactly when every record failed (including the empty vault), "with errors" exactly when some but not all failed, and "loaded" exactly when none failed in a non-empty vault. The vault and the pending slot never change |
| MainUi.PasswordManagerApp.HandleResetForm | app/ui/main_ui.py:423-429 | every field is emptied, nothing is pending, the buttons are hidden, and the vault and table are unchanged |
| Vault.Decrypted | app/ui/main_ui.py:358-364 | a load shows at most one row per record |
| Vault.Failures | app/ui/main_ui.py:358-364 | the error count is between 0 and the number of records |
| Vault.LoadAccounting | app/ui/main_ui.py:358-364 | every record is either shown or counted as an error, never both |
| Vault.LoadAppend | app/ui/main_ui.py:358-364 | loading one more record shows the old rows plus that record's entry if it opens, and counts one more error exactly when it does not |
| Vault.SaveThenLoad | app/ui/main_ui.py:270-276 | a save followed by a load with the same master shows the old rows followed by the saved entry, with no new error |
| Vault.ForeignRecordFails | app/ui/main_ui.py:358-364 | a record sealed under another master adds one error and no row, and never hides the other records |
| Vault.ServiceExistsIffShown | app/ui/main_ui.py:197-206 | the duplicate check finds a service exactly when a load with the same master would show a row for it |
| Vault.ServiceExistsAfterSave | app/ui/main_ui.py:260-276 | after a save, its service is found by the duplicate check, and services found before are still found |
| Vault.DuplicateKept | app/ui/main_ui.py:302-313 | confirming a duplicate save adds one row for the service and keeps the old one, so a load then shows at least two rows for it |

## Left out

- Widgets, CSS, `compose`, `on_mount` and `on_button_pressed` are left out. Each handler is a method, and the values `on_button_pressed` passes it are its parameters.
- `update_status` is left out. The status is a `Status` value naming each message; the message text itself is not modelled.
- `toggle_confirm_button`'s failure paths are left out: a missing button (`NoMatches`) or another exception. The buttons' visibility is a boolean field.
- The clipboard handlers, `handle_toggle_password`, `handle_show_help`, and the network handlers `handle_share_entry` and `handle_receive_entry` are left out. They are widget, clipboard and socket I/O with no vault state.
- File I/O is left out. The vault file is a `VaultFile` value: missing, corrupt JSON (`JSONDecodeError`) or a list of records. Not modelled:
  - `mkdir`;
  - write failures and the generic `except Exception` branches of `handle_confirm`;
  - a JSON file that parses to something other than a list.
- Key derivation and the cipher itself are left out: PBKDF2-HMAC-SHA-256, AES-256-GCM and base64. `Cipher` replaces them with an ideal symbolic authenticated encryption, as the definition of the cipher. No computational security is proved.
- Cipher.Decrypt: a record that opens to JSON missing one of the keys `service`, `username`, `password` is not modelled; in the model every sealed record holds all three fields. In the source, `handle_load_vault` counts any such record as an error, because it indexes all three keys. `check_service_exists` reads only `service`, with `entry.get`. A record without `service` is therefore "no such service" there. A record with the matching `service` but no `username` or `password` is found as a duplicate.
- Vault.ServiceExistsIffShown: the equivalence holds only for records whose JSON carries all three keys. For a record with the matching `service` and a missing `username` or `password`, the duplicate check finds the service but a load counts an error and shows no row.
- PyText.ParseInt: the digit limit is CPython's default of 4300. `sys.set_int_max_str_digits` and `PYTHONINTMAXSTRDIGITS` can change it, and Python releases without the limit (before 3.11 and its security backports) have none. The model fixes it at 4300.
- PyText.ParseDigitString: `int()` also accepts non-ASCII Unicode decimal digits, such as Arabic-Indic or full-width digits. The model parses ASCII digits only. White space follows Python's `str.isspace` table in full.
- `app/crypto_utils.py` (the Fernet wrapper), `app/storage.py`, `app/p2p/p2p.py` and the legacy `app/ui.py` are not part of this model.

Some behaviours are kept exactly as the code does them:
- Confirming a pending duplicate save appends a new record; it does not replace the old one, although the status reads "Entry overwritten successfully." (`Vault.DuplicateKept`).
- Loading an empty vault reports "Decryption failed for all entries."
- Requesting a clear while a save is pending replaces the pending save.
