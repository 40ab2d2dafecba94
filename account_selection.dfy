/** Value-level view of the account-selection state kept by the user context:
    what the candidate list looks like (address and active flag of each
    account, in order), what `selectAccount` and the restore-on-discovery step
    do to it, and the discovery decision of `fetchAccounts`. The stateful
    model in user_session.dfy is proved against these functions. */
module AccountSelection {

  datatype Option<+T> = None | Some(value: T)

  /** One wallet account as the selection logic sees it. */
  datatype AccountView = AccountView(address: string, isActive: bool)

  /** Indices of the accounts whose `isActive` flag is set. */
  function ActiveIndices(s: seq<AccountView>): set<nat>
  {
    set k: nat | k < |s| && s[k].isActive
  }

  /** No two accounts of the list share an address. */
  predicate DistinctAddresses(s: seq<AccountView>)
  {
    forall i, j :: 0 <= i < j < |s| ==> s[i].address != s[j].address
  }

  /** No account of the list is active (a freshly discovered list). */
  predicate NoneActive(s: seq<AccountView>)
  {
    forall k :: 0 <= k < |s| ==> !s[k].isActive
  }

  /** The number of active accounts in the list. */
  function CountActive(s: seq<AccountView>): nat
  {
    if s == [] then 0 else CountActive(s[..|s| - 1]) + (if s[|s| - 1].isActive then 1 else 0)
  }

  /** Counting the active accounts gives the size of the set of active
      positions, so the two descriptions of "which accounts are active"
      agree. */
  lemma {:induction false} CountIsCardinality(s: seq<AccountView>)
    ensures CountActive(s) == |ActiveIndices(s)|
  {
    if s != [] {
      var n := |s| - 1;
      var prefix := s[..n];
      CountIsCardinality(prefix);
      assert n !in ActiveIndices(prefix);
      if s[n].isActive {
        assert ActiveIndices(s) == ActiveIndices(prefix) + {n};
      } else {
        assert ActiveIndices(s) == ActiveIndices(prefix);
      }
    }
  }

  // ---------------------------------------------------------------------------
  // fetchAccounts: the null-or-list decision
  // ---------------------------------------------------------------------------

  /** The outcome of account discovery. Without a window, or when no wallet
      extension answers the enable request, the result is null; otherwise it
      is the account list the extensions expose, untouched. */
  function Discover<L>(hasWindow: bool, extensionCount: nat, accounts: L): Option<L>
  {
    if hasWindow && extensionCount != 0 then Some(accounts) else None
  }

  // ---------------------------------------------------------------------------
  // selectAccount
  // ---------------------------------------------------------------------------

  /** The flags left by one pass of `selectAccount`: each account is first
      cleared and then set again exactly when its position equals `index`. */
  function Selected(s: seq<AccountView>, index: int): seq<AccountView>
  {
    seq(|s|, k requires 0 <= k < |s| => AccountView(s[k].address, k == index))
  }

  /** The `savedAccount` storage slot after `selectAccount`: written with the
      chosen account's address when some position equals `index`, untouched
      otherwise. */
  function SavedAfterSelect(s: seq<AccountView>, index: int, saved: Option<string>): Option<string>
  {
    if 0 <= index < |s| then Some(s[index].address) else saved
  }

  /** After a selection exactly the chosen account is active; with an index
      outside the list no account is active. */
  lemma {:induction false} SelectActivatesExactly(s: seq<AccountView>, index: int)
    ensures ActiveIndices(Selected(s, index)) == if 0 <= index < |s| then {index as nat} else {}
    ensures CountActive(Selected(s, index)) == if 0 <= index < |s| then 1 else 0
  {
    var r := Selected(s, index);
    if 0 <= index < |s| {
      assert index as nat in ActiveIndices(r);
      assert ActiveIndices(r) == {index as nat};
    } else {
      assert ActiveIndices(r) == {};
    }
    CountIsCardinality(r);
  }

  /** A selection keeps the list's length, order and addresses: only the
      `isActive` flags change. */
  lemma SelectKeepsAddresses(s: seq<AccountView>, index: int)
    ensures |Selected(s, index)| == |s|
    ensures forall k :: 0 <= k < |s| ==> Selected(s, index)[k].address == s[k].address
  {
  }

  /** Selecting the same index twice leaves the same flags and the same
      storage content as selecting it once. */
  lemma SelectIdempotent(s: seq<AccountView>, index: int, saved: Option<string>)
    ensures Selected(Selected(s, index), index) == Selected(s, index)
    ensures SavedAfterSelect(Selected(s, index), index, SavedAfterSelect(s, index, saved))
            == SavedAfterSelect(s, index, saved)
  {
  }

  /** With an index outside the list every account ends inactive and the
      storage slot is not written. */
  lemma SelectOutOfRange(s: seq<AccountView>, index: int, saved: Option<string>)
    requires index < 0 || index >= |s|
    ensures NoneActive(Selected(s, index))
    ensures SavedAfterSelect(s, index, saved) == saved
  {
  }

  // ---------------------------------------------------------------------------
  // Restore on discovery
  // ---------------------------------------------------------------------------

  /** The account's address equals the stored `savedAccount` value (an absent
      value equals no address). */
  predicate Matches(a: AccountView, saved: Option<string>)
  {
    saved == Some(a.address)
  }

  /** The flags left by the restore pass: a matching account is set active,
      every other account keeps the flag it came with. */
  function Restored(s: seq<AccountView>, saved: Option<string>): seq<AccountView>
  {
    seq(|s|, k requires 0 <= k < |s| => AccountView(s[k].address, s[k].isActive || Matches(s[k], saved)))
  }

  /** The position of the last account matching `saved`, if any: the account
      the restore pass leaves as current. */
  function LastMatch(s: seq<AccountView>, saved: Option<string>): (r: Option<nat>)
    ensures r.Some? ==> r.value < |s| && Matches(s[r.value], saved)
    ensures r.Some? ==> forall k :: r.value < k < |s| ==> !Matches(s[k], saved)
    ensures r.None? <==> forall k :: 0 <= k < |s| ==> !Matches(s[k], saved)
  {
    if |s| == 0 then None
    else if Matches(s[|s| - 1], saved) then Some(|s| - 1)
    else LastMatch(s[..|s| - 1], saved)
  }

  /** The position of the last match is determined by its contract: any
      position that matches with no match after it is the last match, and
      with no match anywhere there is none. */
  lemma LastMatchUnique(s: seq<AccountView>, saved: Option<string>, m: Option<nat>)
    requires m.Some? ==> m.value < |s| && Matches(s[m.value], saved)
    requires m.Some? ==> forall k :: m.value < k < |s| ==> !Matches(s[k], saved)
    requires m.None? ==> forall k :: 0 <= k < |s| ==> !Matches(s[k], saved)
    ensures LastMatch(s, saved) == m
  {
  }

  /** The restore pass activates exactly the matching accounts on top of the
      ones already active, and keeps every address in place. */
  lemma RestoreActivatesMatches(s: seq<AccountView>, saved: Option<string>)
    ensures |Restored(s, saved)| == |s|
    ensures forall k :: 0 <= k < |s| ==> Restored(s, saved)[k].address == s[k].address
    ensures ActiveIndices(Restored(s, saved))
            == ActiveIndices(s) + set k: nat | k < |s| && Matches(s[k], saved)
  {
  }

  /** The account left as current by the restore pass is active afterwards. */
  lemma RestoreCurrentIsActive(s: seq<AccountView>, saved: Option<string>)
    requires LastMatch(s, saved).Some?
    ensures LastMatch(s, saved).value in ActiveIndices(Restored(s, saved))
  {
  }

  /** When no account matches, the restore pass changes no flag. */
  lemma RestoreWithoutMatch(s: seq<AccountView>, saved: Option<string>)
    requires LastMatch(s, saved).None?
    ensures Restored(s, saved) == s
  {
    assert forall k :: 0 <= k < |s| ==> Restored(s, saved)[k] == s[k];
  }

  /** On a freshly discovered list with distinct addresses the restore pass
      leaves at most one account active: the matching one, which is also the
      one made current. */
  lemma {:induction false} RestoreActivatesAtMostOne(s: seq<AccountView>, saved: Option<string>)
    requires NoneActive(s) && DistinctAddresses(s)
    ensures ActiveIndices(Restored(s, saved))
            == match LastMatch(s, saved) case Some(k) => {k} case None => {}
    ensures CountActive(Restored(s, saved)) == if LastMatch(s, saved).Some? then 1 else 0
  {
    var r := Restored(s, saved);
    match LastMatch(s, saved)
    case Some(m) =>
      forall k: nat | k in ActiveIndices(r) ensures k == m {
        assert s[k].address == s[m].address;
      }
      assert m in ActiveIndices(r);
      assert ActiveIndices(r) == {m};
      CountIsCardinality(r);
    case None =>
      assert ActiveIndices(r) == {};
      CountIsCardinality(r);
  }

  /** The restore pass can leave several accounts active when an address
      occurs twice in the discovered list. */
  lemma RestoreWithRepeatedAddress()
    ensures var s := [AccountView("5Grw", false), AccountView("5Grw", false)];
            ActiveIndices(Restored(s, Some("5Grw"))) == {0, 1} && CountActive(Restored(s, Some("5Grw"))) == 2
  {
  }

  /** Persistence round trip: selecting position `i` in one session, and
      then discovering the same accounts afresh (all inactive, distinct
      addresses, in the same order) in a new session, restores the same
      selection: position `i` is current, and the flags are those the
      selection left, with exactly one account active. The list selected in
      may carry any flags. */
  lemma SelectThenRestore(s1: seq<AccountView>, s2: seq<AccountView>, i: int, saved: Option<string>)
    requires |s2| == |s1| && forall k :: 0 <= k < |s1| ==> s2[k].address == s1[k].address
    requires NoneActive(s2) && DistinctAddresses(s2)
    requires 0 <= i < |s1|
    ensures LastMatch(s2, SavedAfterSelect(s1, i, saved)) == Some(i)
    ensures Restored(s2, SavedAfterSelect(s1, i, saved)) == Selected(s1, i)
    ensures CountActive(Restored(s2, SavedAfterSelect(s1, i, saved))) == 1
  {
    var stored := SavedAfterSelect(s1, i, saved);
    var m := LastMatch(s2, stored);
    assert Matches(s2[i], stored);
    assert m.Some?;
    assert s2[m.value].address == s2[i].address;
    assert m.value == i;
    assert forall k :: 0 <= k < |s2| ==> Restored(s2, stored)[k] == Selected(s1, i)[k];
    SelectActivatesExactly(s1, i);
  }
}
