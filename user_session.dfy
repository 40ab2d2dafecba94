/** The account-selection state of the user context provider: the list of
    injected accounts, the current account, and the `savedAccount` slot of
    persistent storage. Accounts are objects whose `isActive` flag is changed
    in place, and the current account is one of those objects, so a later
    change of a flag is seen through it too. */
module UserContext {
  import opened AccountSelection

  /** A wallet account exposed by an extension. Its address never changes;
      the selection logic toggles `isActive` in place. */
  class Account {
    const address: string
    var isActive: bool

    constructor (address: string, isActive: bool)
      ensures this.address == address && this.isActive == isActive
    {
      this.address := address;
      this.isActive := isActive;
    }

    function View(): AccountView
      reads this
    {
      AccountView(address, isActive)
    }
  }

  /** The flags and addresses of a list of accounts, in order. */
  ghost function Views(s: seq<Account>): seq<AccountView>
    reads s
  {
    seq(|s|, k requires 0 <= k < |s| reads s => s[k].View())
  }

  /** A list whose accounts show, position by position, the views of `t`
      has `t` as its views. */
  lemma ViewsAre(s: seq<Account>, t: seq<AccountView>)
    requires |s| == |t|
    requires forall k :: 0 <= k < |s| ==> s[k].View() == t[k]
    ensures Views(s) == t
  {
  }

  /** Every account object occurs at most once in the list. */
  predicate DistinctObjects(s: seq<Account>)
  {
    forall i, j :: 0 <= i < j < |s| ==> s[i] != s[j]
  }

  /** The account objects held by a list, which its operations may change. */
  function Elements(a: array?<Account>): set<Account>
    reads a
  {
    if a == null then {} else set k | 0 <= k < a.Length :: a[k]
  }

  class UserSession {
    /** `injectedAccounts`: null until discovery produced a list. */
    var injected: array?<Account>
    /** `currentAccount`: null when no account is current. */
    var current: Account?
    /** The `savedAccount` key of persistent storage. */
    var saved: Option<string>

    ghost predicate Valid()
      reads this, injected
    {
      injected != null ==> DistinctObjects(injected[..])
    }

    /** A provider that has not discovered anything yet, over storage that
        holds `stored` from an earlier session. */
    constructor (stored: Option<string>)
      ensures Valid()
      ensures injected == null && current == null && saved == stored
    {
      injected := null;
      current := null;
      saved := stored;
    }

    /** `selectAccount(event, index)`: clear every flag, set the flag of the
        account at `index`, store its address and make it current. Without a
        list nothing happens. An index outside the list clears every flag,
        writes nothing and leaves no current account. */
    method SelectAccount(index: int)
      requires Valid()
      modifies Elements(injected), this`current, this`saved
      ensures Valid() && injected == old(injected)
      ensures injected == null ==> current == old(current) && saved == old(saved)
      ensures injected != null ==>
                Views(injected[..]) == Selected(old(Views(injected[..])), index)
      ensures injected != null ==>
                saved == SavedAfterSelect(old(Views(injected[..])), index, old(saved))
      ensures injected != null ==>
                current == if 0 <= index < injected.Length then injected[index] else null
    {
      if injected != null {
        var accounts := injected;
        ghost var before := Views(accounts[..]);
        var i := 0;
        while i < accounts.Length
          invariant 0 <= i <= accounts.Length
          invariant forall k :: 0 <= k < i ==> accounts[k].View() == AccountView(before[k].address, k == index)
          invariant forall k :: i <= k < accounts.Length ==> accounts[k].View() == before[k]
          invariant saved == if 0 <= index < i then Some(before[index].address) else old(saved)
        {
          accounts[i].isActive := false;
          if i == index {
            accounts[i].isActive := true;
            saved := Some(accounts[i].address);
          }
          i := i + 1;
        }
        current := if 0 <= index < accounts.Length then accounts[index] else null;
        assert Views(accounts[..]) == Selected(before, index);
      }
    }

    /** The callback run on the result of discovery: when a list arrived,
        mark active every account whose address equals the stored
        `savedAccount`, make the last such account current, and publish the
        list as `injectedAccounts`. Storage is only read. A null result
        changes nothing. */
    method RestoreOnDiscovery(found: array?<Account>)
      requires Valid()
      requires found != null ==> DistinctObjects(found[..])
      modifies Elements(found), this`current, this`injected
      ensures Valid() && saved == old(saved)
      ensures found == null ==> injected == old(injected) && current == old(current)
      ensures found != null ==> injected == found
      ensures found != null ==>
                Views(found[..]) == Restored(old(Views(found[..])), saved)
      ensures found != null ==>
                current == match LastMatch(old(Views(found[..])), saved)
                           case Some(k) => found[k]
                           case None => old(current)
    {
      if found != null {
        ghost var before := Views(found[..]);
        ghost var last: Option<nat> := None;
        var i := 0;
        while i < found.Length
          invariant 0 <= i <= found.Length
          invariant forall k :: 0 <= k < i ==> found[k].View() == Restored(before, saved)[k]
          invariant forall k :: i <= k < found.Length ==> found[k].View() == before[k]
          invariant last.Some? ==> last.value < i && Matches(before[last.value], saved)
          invariant last.Some? ==> forall k :: last.value < k < i ==> !Matches(before[k], saved)
          invariant last.None? ==> forall k :: 0 <= k < i ==> !Matches(before[k], saved)
          invariant current == if last.Some? then found[last.value] else old(current)
        {
          if Some(found[i].address) == saved {
            found[i].isActive := true;
            current := found[i];
            last := Some(i);
          }
          i := i + 1;
        }
        LastMatchUnique(before, saved, last);
        ViewsAre(found[..], Restored(before, saved));
        injected := found;
      }
    }

    /** The mount effect: discovery followed by the restore callback. Without
        a window or without an enabled extension the published list and the
        current account are left as they were. */
    method Mount(hasWindow: bool, extensionCount: nat, accounts: array<Account>)
      requires Valid() && DistinctObjects(accounts[..])
      modifies Elements(accounts), this`current, this`injected
      ensures Valid() && saved == old(saved)
      ensures (!hasWindow || extensionCount == 0) ==>
                injected == old(injected) && current == old(current) && unchanged(Elements(accounts))
      ensures hasWindow && extensionCount != 0 ==>
                injected == accounts && Views(accounts[..]) == Restored(old(Views(accounts[..])), saved)
      ensures hasWindow && extensionCount != 0 ==>
                current == match LastMatch(old(Views(accounts[..])), saved)
                           case Some(k) => accounts[k]
                           case None => old(current)
    {
      var found: array?<Account> := match Discover(hasWindow, extensionCount, accounts)
                                    case Some(a) => a
                                    case None => null;
      RestoreOnDiscovery(found);
    }
  }
}
