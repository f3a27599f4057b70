/** The vault file `app/data/vault.json` and what the controller computes from
    its records: which records open under a master password, how many do not,
    and whether a service name is already stored. */
module Vault {
  import opened Wrappers
  import opened Cipher

  /** The vault file as `json.load` finds it: absent, not parseable JSON
      (`JSONDecodeError`), or a list of records. */
  datatype VaultFile = Missing | Corrupt | Stored(records: seq<Record>) {

    /** `VAULT_PATH.exists()` */
    predicate Exists() {
      !Missing?
    }

    /** The list the save paths start from: the stored records, or `[]` when
        there is no file yet. */
    function RecordsOrEmpty(): seq<Record> {
      if Stored? then records else []
    }
  }

  /** The entries of `rs` that open under `master`, in vault order: the rows
      a load adds to the table. */
  function Decrypted(rs: seq<Record>, master: string): (es: seq<Entry>)
    ensures |es| <= |rs|
  {
    if rs == [] then []
    else
      var init := Decrypted(rs[..|rs| - 1], master);
      match Decrypt(master, rs[|rs| - 1])
      case Some(e) => init + [e]
      case None => init
  }

  /** The number of records of `rs` that do not open under `master`: the
      `errors` a load counts. */
  function Failures(rs: seq<Record>, master: string): (n: nat)
    ensures n <= |rs|
  {
    if rs == [] then 0
    else Failures(rs[..|rs| - 1], master) + (if Decrypt(master, rs[|rs| - 1]).None? then 1 else 0)
  }

  /** Every record is either shown or counted as a failure, never both. */
  lemma {:induction false} LoadAccounting(rs: seq<Record>, master: string)
    ensures |Decrypted(rs, master)| + Failures(rs, master) == |rs|
  {
    if rs != [] {
      LoadAccounting(rs[..|rs| - 1], master);
    }
  }

  /** Loading `rs + [r]` shows what loading `rs` shows, then `r`'s entry if it
      opens; the failure count grows by one exactly when it does not. */
  lemma LoadAppend(rs: seq<Record>, r: Record, master: string)
    ensures Decrypted(rs + [r], master)
         == Decrypted(rs, master) + (match Decrypt(master, r) case Some(e) => [e] case None => [])
    ensures Failures(rs + [r], master)
         == Failures(rs, master) + (if Decrypt(master, r).None? then 1 else 0)
  {
    assert (rs + [r])[..|rs|] == rs;
  }

  /** A save followed by a load with the same master password shows the old
      rows followed by the saved entry, with no new failure. */
  lemma SaveThenLoad(rs: seq<Record>, master: string, e: Entry, coins: Coins)
    ensures Decrypted(rs + [Encrypt(master, e, coins)], master) == Decrypted(rs, master) + [e]
    ensures Failures(rs + [Encrypt(master, e, coins)], master) == Failures(rs, master)
  {
    LoadAppend(rs, Encrypt(master, e, coins), master);
  }

  /** A record sealed under another master password adds a failure and no row:
      one bad or foreign-keyed record never hides the others. */
  lemma ForeignRecordFails(rs: seq<Record>, master: string, other: string, e: Entry, coins: Coins)
    requires other != master
    ensures Decrypted(rs + [Encrypt(other, e, coins)], master) == Decrypted(rs, master)
    ensures Failures(rs + [Encrypt(other, e, coins)], master) == Failures(rs, master) + 1
  {
    LoadAppend(rs, Encrypt(other, e, coins), master);
  }

  /** `r` opens under `master` to an entry whose service is `service`. */
  predicate HoldsService(r: Record, master: string, service: string) {
    match Decrypt(master, r)
    case Some(e) => e.service == service
    case None => false
  }

  /** Some record of `rs` opens under `master` to an entry for `service`;
      records that do not open are skipped. */
  ghost predicate ServiceExists(service: string, rs: seq<Record>, master: string) {
    exists i :: 0 <= i < |rs| && HoldsService(rs[i], master, service)
  }

  /** The number of entries of `es` for `service`. */
  function ServiceCount(es: seq<Entry>, service: string): (n: nat)
    ensures n <= |es|
  {
    if es == [] then 0
    else ServiceCount(es[..|es| - 1], service) + (if es[|es| - 1].service == service then 1 else 0)
  }

  /** The duplicate check finds a service exactly when a load with the same
      master password would show a row for it. */
  lemma {:induction false} ServiceExistsIffShown(service: string, rs: seq<Record>, master: string)
    ensures ServiceExists(service, rs, master) <==> ServiceCount(Decrypted(rs, master), service) > 0
  {
    if rs != [] {
      var init := rs[..|rs| - 1];
      var last := rs[|rs| - 1];
      ServiceExistsIffShown(service, init, master);
      assert rs == init + [last];
      LoadAppend(init, last, master);
      if ServiceExists(service, rs, master) {
        var i :| 0 <= i < |rs| && HoldsService(rs[i], master, service);
        if i < |init| {
          assert HoldsService(init[i], master, service);
        }
      }
      if ServiceExists(service, init, master) {
        var i :| 0 <= i < |init| && HoldsService(init[i], master, service);
        assert HoldsService(rs[i], master, service);
      }
      var shown := Decrypted(init, master);
      if Decrypt(master, last).Some? {
        assert Decrypted(rs, master)[..|shown|] == shown;
      }
    }
  }

  /** Saving an entry under `master` makes its service exist, and a service
      that existed still does. */
  lemma ServiceExistsAfterSave(rs: seq<Record>, master: string, e: Entry, coins: Coins, service: string)
    ensures ServiceExists(e.service, rs + [Encrypt(master, e, coins)], master)
    ensures ServiceExists(service, rs, master) ==> ServiceExists(service, rs + [Encrypt(master, e, coins)], master)
  {
    var rs' := rs + [Encrypt(master, e, coins)];
    assert HoldsService(rs'[|rs|], master, e.service);
    if ServiceExists(service, rs, master) {
      var i :| 0 <= i < |rs| && HoldsService(rs[i], master, service);
      assert HoldsService(rs'[i], master, service);
    }
  }

  /** Confirming a duplicate save appends rather than replaces: afterwards a
      load with that master password shows at least two rows for the service. */
  lemma DuplicateKept(rs: seq<Record>, master: string, e: Entry, coins: Coins)
    requires ServiceExists(e.service, rs, master)
    ensures ServiceCount(Decrypted(rs + [Encrypt(master, e, coins)], master), e.service)
         == ServiceCount(Decrypted(rs, master), e.service) + 1 >= 2
  {
    ServiceExistsIffShown(e.service, rs, master);
    SaveThenLoad(rs, master, e, coins);
    var shown := Decrypted(rs, master);
    assert (shown + [e])[..|shown|] == shown;
  }
}
