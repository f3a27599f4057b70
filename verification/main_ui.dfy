/** The vault-management controller of `PasswordManagerApp` in
    app/ui/main_ui.py: the form it reads, the vault file it reads and
    rewrites, the pending-confirmation slot `_confirm_state`, the status line,
    the vault table and the visibility of the Confirm and Cancel buttons. */
module MainUi {
  import opened Wrappers
  import opened PyText
  import opened Cipher
  import opened Vault

  /** The messages the controller writes with `update_status`. */
  datatype Status =
    | Ready
    | ErrServiceAndPasswordRequired
    | ErrMasterTooShort
    | ErrVaultCorrupted
    | ServiceAlreadyExists(service: string)
    | EntrySaved
    | ErrNoVaultToClear
    | ConfirmClearPrompt
    | ErrNoPendingAction
    | EntryOverwritten
    | VaultCleared
    | ConfirmationCanceled
    | ErrMasterRequired
    | ErrNoVault
    | ErrAllDecryptionsFailed
    | LoadedWithErrors(errors: nat)
    | VaultLoaded
    | FormReset
    | ErrPortOutOfRange
    | ErrPortNotNumber
  {
    /** The message starts with "[Error]". */
    predicate IsError() {
      || ErrServiceAndPasswordRequired? || ErrMasterTooShort? || ErrVaultCorrupted?
      || ErrNoVaultToClear? || ErrNoPendingAction? || ErrMasterRequired? || ErrNoVault?
      || ErrAllDecryptionsFailed? || ErrPortOutOfRange? || ErrPortNotNumber?
    }
  }

  /** The raw values of the six `Input` widgets, as typed. */
  datatype Form = Form(master: string, service: string, username: string, password: string,
                       peerIp: string, peerPort: string)

  const EmptyForm := Form("", "", "", "", "", "")
  const DefaultPeerIp := "127.0.0.1"
  const DefaultPeerPort := "65432"

  /** The dictionary `get_input_values` returns. */
  datatype Inputs = Inputs(master: string, service: string, username: string, password: string,
                           peerIp: string, peerPort: string)

  /** `get_input_values()["master"]`: the master password field, stripped.
      The handlers that read the master password from the form at the time
      they run (the duplicate check and the confirmed save) use this. */
  function FormMaster(f: Form): (m: string)
    ensures Trimmed(m)
  {
    Strip(f.master)
  }

  /** `get_input_values`: every field stripped of surrounding white space, and
      a blank peer address or port replaced by its default; the peer fields
      are therefore never empty. What each field becomes is stated by
      `GetInputValuesFields`. */
  function GetInputValues(f: Form): (r: Inputs)
    ensures Trimmed(r.master) && Trimmed(r.service) && Trimmed(r.username) && Trimmed(r.password)
    ensures Trimmed(r.peerIp) && Trimmed(r.peerPort)
    ensures r.peerIp != "" && r.peerPort != ""
  {
    var ip := Strip(f.peerIp);
    var port := Strip(f.peerPort);
    assert Trimmed(DefaultPeerIp) && Trimmed(DefaultPeerPort);
    Inputs(FormMaster(f), Strip(f.service), Strip(f.username), Strip(f.password),
           if ip == "" then DefaultPeerIp else ip,
           if port == "" then DefaultPeerPort else port)
  }

  /** A field that holds only white space is read as empty, or as the default
      for the peer fields; any other field is read without its padding. */
  lemma GetInputValuesFields(f: Form)
    ensures var r := GetInputValues(f);
      && (r.master == "" <==> AllSpace(f.master))
      && (r.service == "" <==> AllSpace(f.service))
      && (r.password == "" <==> AllSpace(f.password))
      && r.master == Strip(f.master) && r.service == Strip(f.service)
      && r.username == Strip(f.username) && r.password == Strip(f.password)
      && r.peerIp == (if AllSpace(f.peerIp) then DefaultPeerIp else Strip(f.peerIp))
      && r.peerPort == (if AllSpace(f.peerPort) then DefaultPeerPort else Strip(f.peerPort))
  {
    StripBlank(f.master);
    StripBlank(f.service);
    StripBlank(f.password);
    StripBlank(f.peerIp);
    StripBlank(f.peerPort);
  }

  /** Typing the values `get_input_values` returned back into the form gives
      the same values again. */
  lemma GetInputValuesFixpoint(f: Form)
    ensures var r := GetInputValues(f);
      GetInputValues(Form(r.master, r.service, r.username, r.password, r.peerIp, r.peerPort)) == r
  {
    var r := GetInputValues(f);
    StripTrimmed(r.master);
    StripTrimmed(r.service);
    StripTrimmed(r.username);
    StripTrimmed(r.password);
    StripTrimmed(r.peerIp);
    StripTrimmed(r.peerPort);
  }

  /** What `validate_port` yields: the port, or `None` together with the error
      message it shows. */
  datatype PortCheck = ValidPort(port: int) | PortRejected(message: Status)

  /** `validate_port`: accepts exactly the strings `int` parses to a number in
      1..65535; otherwise reports whether the string was not a number or the
      number was out of range. */
  function ValidatePort(portStr: string): (r: PortCheck)
    ensures r.ValidPort? <==> ParseInt(portStr).Some? && 1 <= ParseInt(portStr).value <= 65535
    ensures r.ValidPort? ==> ParseInt(portStr) == Some(r.port)
    ensures r.PortRejected? ==> r.message.IsError()
    ensures r.PortRejected? ==> (r.message == ErrPortNotNumber <==> ParseInt(portStr).None?)
  {
    match ParseInt(portStr)
    case Some(port) =>
      if 1 <= port <= 65535 then ValidPort(port) else PortRejected(ErrPortOutOfRange)
    case None => PortRejected(ErrPortNotNumber)
  }

  /** A port written in decimal is accepted exactly when it is in 1..65535
      and, like any number, a negative one is out of range; a digit string
      longer than the `int` digit limit is "not a number" instead. */
  lemma ValidatePortDecimal(p: nat)
    ensures ValidatePort(Decimal(p)) ==
      if |Decimal(p)| > MaxStrDigits then PortRejected(ErrPortNotNumber)
      else if 1 <= p <= 65535 then ValidPort(p)
      else PortRejected(ErrPortOutOfRange)
    ensures ValidatePort("-" + Decimal(p)) ==
      if |Decimal(p)| > MaxStrDigits then PortRejected(ErrPortNotNumber)
      else PortRejected(ErrPortOutOfRange)
  {
    ParseDecimal(p);
    ParseNegatedDecimal(p);
  }

  /** Leading zeros count towards the digit limit: port 1 written with 4300
      zeros in front is "not a number". */
  lemma LeadingZerosOverLimit()
    ensures ValidatePort(seq(MaxStrDigits, _ => '0') + "1") == PortRejected(ErrPortNotNumber)
  {
    var s := seq(MaxStrDigits, _ => '0') + "1";
    assert AllDigits(s);
    ParseDigitString(s);
  }

  /** An information separator before the digits, which `strip` would have
      removed, makes the port "not a number". */
  lemma InfoSeparatorNotSkipped()
    ensures ValidatePort("\U{1C}5") == PortRejected(ErrPortNotNumber)
  {
    assert IsInfoSeparator("\U{1C}5"[0]);
  }

  /** The default peer port passes the check. */
  lemma DefaultPeerPortValid()
    ensures ValidatePort(DefaultPeerPort) == ValidPort(65432)
  {
    assert Decimal(6) == "6";
    assert Decimal(65) == "65";
    assert Decimal(654) == "654";
    assert Decimal(6543) == "6543";
    assert Decimal(65432) == DefaultPeerPort;
    ValidatePortDecimal(65432);
  }

  /** The status a load ends with, given its error count and the number of
      records: "all failed" exactly when every record failed (so also for an
      empty vault), "loaded with errors" exactly when some but not all did,
      and "loaded" exactly when none did in a non-empty vault. */
  function LoadStatus(errors: nat, records: nat): (s: Status)
    requires errors <= records
    ensures s == ErrAllDecryptionsFailed <==> errors == records
    ensures s == LoadedWithErrors(errors) <==> 0 < errors < records
    ensures s == VaultLoaded <==> errors == 0 < records
  {
    if errors == records then ErrAllDecryptionsFailed
    else if errors > 0 then LoadedWithErrors(errors)
    else VaultLoaded
  }

  /** `_confirm_state`: nothing pending, `("save", id, entry)` or
      `("clear", id, None)`. */
  datatype Pending = Idle | PendingSave(confirmId: string, entry: Entry) | PendingClear(confirmId: string)

  class PasswordManagerApp {
    var form: Form
    var file: VaultFile
    var pending: Pending
    var status: Status
    /** The rows of the vault table. */
    var table: seq<Entry>
    /** Whether the Confirm and Cancel buttons are visible. */
    var confirmShown: bool

    /** The Confirm and Cancel buttons are visible exactly while an action
        waits for confirmation. */
    predicate Valid()
      reads this
    {
      confirmShown <==> !pending.Idle?
    }

    /** `__init__` followed by `compose`: an empty form, nothing pending,
        "Status: Ready", an empty table and whatever vault file is on disk. */
    constructor (file: VaultFile)
      ensures Valid()
      ensures this.file == file && form == EmptyForm && pending == Idle
      ensures status == Ready && table == []
    {
      this.file := file;
      form := EmptyForm;
      pending := Idle;
      status := Ready;
      table := [];
      confirmShown := false;
    }

    /** `check_service_exists`: whether some record opens, under the master
        password currently in the form, to an entry for `service`. Records
        that do not open are skipped. */
    method CheckServiceExists(service: string, data: seq<Record>) returns (found: bool)
      ensures found <==> ServiceExists(service, data, FormMaster(form))
    {
      var master := FormMaster(form);
      var i := 0;
      while i < |data|
        invariant 0 <= i <= |data|
        invariant forall k :: 0 <= k < i ==> !HoldsService(data[k], master, service)
      {
        if HoldsService(data[i], master, service) {
          return true;
        }
        i := i + 1;
      }
      return false;
    }

    /** `handle_save_entry`. Required fields are checked before the master
        password's length, and the vault file's readability after both; any
        rejection changes nothing but the status. A service that already
        exists is parked as a pending save; otherwise one record is appended
        and the master password field is cleared. `coins` is the randomness
        of `encrypt` and `confirmId` the `uuid4` of the confirmation.
        The Save button passes what `get_input_values` reads from the form,
        but the method keeps the source's two readings apart for any
        `inputs`: the duplicate check decrypts under the master password in
        the form, the new record is sealed under `inputs.master`. */
    method HandleSaveEntry(inputs: Inputs, coins: Coins, confirmId: string)
      requires Valid()
      modifies this
      ensures Valid() && table == old(table)
      ensures inputs.service == "" || inputs.password == "" ==>
        status == ErrServiceAndPasswordRequired
      ensures inputs.service != "" && inputs.password != "" && |inputs.master| < 8 ==>
        status == ErrMasterTooShort
      ensures inputs.service != "" && inputs.password != "" && |inputs.master| >= 8 && old(file).Corrupt? ==>
        status == ErrVaultCorrupted
      ensures inputs.service == "" || inputs.password == "" || |inputs.master| < 8 || old(file).Corrupt? ==>
        file == old(file) && pending == old(pending) && form == old(form) && confirmShown == old(confirmShown)
      ensures inputs.service != "" && inputs.password != "" && |inputs.master| >= 8 && !old(file).Corrupt? ==>
        var data := old(file).RecordsOrEmpty();
        var entry := Entry(inputs.service, inputs.username, inputs.password);
        if ServiceExists(inputs.service, data, FormMaster(old(form))) then
          && pending == PendingSave(confirmId, entry)
          && status == ServiceAlreadyExists(inputs.service)
          && file == old(file) && form == old(form)
        else
          && file == Stored(data + [Encrypt(inputs.master, entry, coins)])
          && status == EntrySaved
          && pending == old(pending) && confirmShown == old(confirmShown)
          && form == old(form).(master := "")
    {
      if inputs.service == "" || inputs.password == "" {
        status := ErrServiceAndPasswordRequired;
        return;
      }
      if |inputs.master| < 8 {
        status := ErrMasterTooShort;
        return;
      }
      var entry := Entry(inputs.service, inputs.username, inputs.password);
      var data: seq<Record> := [];
      if file.Exists() {
        if file.Corrupt? {
          status := ErrVaultCorrupted;
          return;
        }
        data := file.records;
      }
      var duplicate := CheckServiceExists(inputs.service, data);
      if duplicate {
        pending := PendingSave(confirmId, entry);
        status := ServiceAlreadyExists(inputs.service);
        confirmShown := true;
        return;
      }
      var encrypted := Encrypt(inputs.master, entry, coins);
      data := data + [encrypted];
      file := Stored(data);
      status := EntrySaved;
      form := form.(master := "");
    }

    /** `handle_clear_vault`: with no vault file only the status changes;
        otherwise a clear is parked for confirmation, replacing whatever was
        pending. The vault itself is not touched. */
    method HandleClearVault(confirmId: string)
      requires Valid()
      modifies this
      ensures Valid()
      ensures file == old(file) && form == old(form) && table == old(table)
      ensures old(file).Missing? ==>
        status == ErrNoVaultToClear && pending == old(pending) && confirmShown == old(confirmShown)
      ensures old(file).Exists() ==>
        pending == PendingClear(confirmId) && status == ConfirmClearPrompt
    {
      if !file.Exists() {
        status := ErrNoVaultToClear;
        return;
      }
      pending := PendingClear(confirmId);
      status := ConfirmClearPrompt;
      confirmShown := true;
    }

    /** `handle_confirm`: always leaves nothing pending. With nothing pending
        it only reports the error. A pending save appends one record sealed
        under the master password in the form now, whatever its length, and
        keeps the duplicate it was parked for. A pending clear empties the
        vault file and the table. */
    method HandleConfirm(coins: Coins)
      requires Valid()
      modifies this
      ensures Valid() && pending == Idle
      ensures old(pending).Idle? ==>
        status == ErrNoPendingAction && file == old(file) && form == old(form) && table == old(table)
      ensures old(pending).PendingSave? ==> table == old(table)
      ensures old(pending).PendingSave? && old(file).Corrupt? ==>
        status == ErrVaultCorrupted && file == old(file) && form == old(form)
      ensures old(pending).PendingSave? && !old(file).Corrupt? ==>
        && file == Stored(old(file).RecordsOrEmpty()
                          + [Encrypt(FormMaster(old(form)), old(pending).entry, coins)])
        && status == EntryOverwritten
        && form == old(form).(master := "")
      ensures old(pending).PendingClear? ==>
        file == Stored([]) && table == [] && status == VaultCleared && form == old(form)
    {
      if pending.Idle? {
        status := ErrNoPendingAction;
        confirmShown := false;
        return;
      }
      var action := pending;
      pending := Idle;
      confirmShown := false;
      match action
      case PendingSave(_, entry) =>
        if file.Corrupt? {
          status := ErrVaultCorrupted;
        } else {
          var vaultData := file.RecordsOrEmpty();
          var encrypted := Encrypt(FormMaster(form), entry, coins);
          vaultData := vaultData + [encrypted];
          file := Stored(vaultData);
          status := EntryOverwritten;
          form := form.(master := "");
        }
      case PendingClear(_) =>
        file := Stored([]);
        table := [];
        status := VaultCleared;
    }

    /** `handle_cancel`: drops whatever was pending and hides the buttons;
        the vault, the form and the table are untouched. */
    method HandleCancel()
      modifies this
      ensures Valid() && pending == Idle && status == ConfirmationCanceled
      ensures file == old(file) && form == old(form) && table == old(table)
    {
      pending := Idle;
      confirmShown := false;
      status := ConfirmationCanceled;
    }

    /** `handle_load_vault`: after the master-present, length and
        vault-exists checks (each of which changes only the status) the table
        is cleared; a corrupt file stops there. Otherwise the table shows
        every entry that opens under `master`, in vault order, the others are
        counted, and the status says whether all, some or none failed (an
        empty vault counts as "all failed"). The vault and the pending slot
        never change. */
    method HandleLoadVault(master: string)
      requires Valid()
      modifies this
      ensures Valid()
      ensures file == old(file) && pending == old(pending)
      ensures master == "" ==> status == ErrMasterRequired
      ensures master != "" && |master| < 8 ==> status == ErrMasterTooShort
      ensures |master| >= 8 && old(file).Missing? ==> status == ErrNoVault
      ensures |master| < 8 || old(file).Missing? ==> table == old(table) && form == old(form)
      ensures |master| >= 8 && old(file).Corrupt? ==>
        status == ErrVaultCorrupted && table == [] && form == old(form)
      ensures |master| >= 8 && old(file).Stored? ==>
        var rs := old(file).records;
        var errors := Failures(rs, master);
        && table == Decrypted(rs, master)
        && |table| + errors == |rs|
        && form == old(form).(master := "")
        && status == LoadStatus(errors, |rs|)
    {
      if master == "" {
        status := ErrMasterRequired;
      } else if |master| < 8 {
        status := ErrMasterTooShort;
      } else if !file.Exists() {
        status := ErrNoVault;
      } else {
        table := [];
        if file.Corrupt? {
          status := ErrVaultCorrupted;
        } else {
          var data := file.records;
          var errors := AddDecryptedRows(data, master);
          LoadAccounting(data, master);
          status := LoadStatus(errors, |data|);
          form := form.(master := "");
        }
      }
    }

    /** The `for record in data` loop of `handle_load_vault`: adds to the
        table, in vault order, every entry that opens under `master`, and
        counts the records that do not. Nothing else changes. */
    method AddDecryptedRows(data: seq<Record>, master: string) returns (errors: nat)
      modifies this
      ensures table == old(table) + Decrypted(data, master)
      ensures errors == Failures(data, master)
      ensures file == old(file) && pending == old(pending) && form == old(form)
      ensures status == old(status) && confirmShown == old(confirmShown)
    {
      errors := 0;
      var i := 0;
      while i < |data|
        invariant 0 <= i <= |data|
        invariant table == old(table) + Decrypted(data[..i], master)
        invariant errors == Failures(data[..i], master)
        invariant file == old(file) && pending == old(pending) && form == old(form)
        invariant status == old(status) && confirmShown == old(confirmShown)
      {
        assert data[..i + 1][..i] == data[..i];
        var plain := Decrypt(master, data[i]);
        if plain.Some? {
          table := table + [plain.value];
        } else {
          errors := errors + 1;
        }
        i := i + 1;
      }
      assert data[..i] == data;
    }

    /** `handle_reset_form`: empties every field, hides the buttons and drops
        whatever was pending; the vault and the table are untouched. */
    method HandleResetForm()
      modifies this
      ensures Valid() && pending == Idle && form == EmptyForm && status == FormReset
      ensures file == old(file) && table == old(table)
    {
      form := EmptyForm;
      status := FormReset;
      confirmShown := false;
      pending := Idle;
    }
  }
}
