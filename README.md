# Account selection in the DAO app's user context

This project models the account-selection state kept by the `UserProvider` of
the DAO front end (`src/context/UserContext.tsx`). That state has three parts:

- the list of wallet-extension accounts (`injectedAccounts`, null until discovery has produced a list);
- the current account (`currentAccount`);
- the `savedAccount` key of the browser's persistent storage, which remembers the last selected address across reloads.

Three operations change it:

- **Discovery** (`fetchAccounts`). Without a window, or when no wallet extension answers the enable request, the result is null. Otherwise the result is the list of accounts that the extensions expose.
- **Restore on discovery** (the callback that the mount effect runs on the discovery result). Every account whose address equals the stored `savedAccount` is marked active. The last such account becomes current. The list is then published as `injectedAccounts`.
- **`selectAccount(event, index)`**. It walks the list, clears every `isActive` flag and sets the flag of the account at `index`. It stores that account's address under `savedAccount` and makes that account current.

Accounts are objects whose `isActive` flag is changed in place. The current account is one of those objects, not a copy. So the model has a class `UserContext.Account` with a constant address and a mutable flag, and a class `UserContext.UserSession` with these fields:

- `injected: array?<Account>`;
- `current: Account?`;
- `saved: Option<string>`.

Two of its methods have the source's loops: `SelectAccount` and `RestoreOnDiscovery`. Each is proved against a function on the list's values, and both functions live in module `AccountSelection`:

- `Selected` and `SavedAfterSelect` describe `selectAccount`;
- `Restored` and `LastMatch` describe the restore step.

The lemmas in that module state what the source promises about those functions: which flags are set, what storage holds, which account is current, and that nothing else changes. They also state how the two operations relate: after a selection, the next session restores the same selection.

Three behaviours of the code matter for the properties below, and the model keeps them as written:

- **Flags of other accounts on restore.** The restore step only ever sets flags. It never clears the flag of a non-matching account, so `Restored` keeps each such flag as it arrived from discovery.
- **Repeated addresses.** The restore step marks *every* account whose address matches. An address that occurs twice in the list (for example the same account exposed by two extensions) leaves two accounts active; `RestoreWithRepeatedAddress` exhibits this. So "at most one active account" after a restore is proved only for lists with distinct addresses (`RestoreActivatesAtMostOne`). After `selectAccount` it holds unconditionally (`SelectActivatesExactly`).
- **An index outside the list.** `selectAccount` still clears every flag and writes no storage. It then sets the current account to `injectedAccounts[index]`, which is `undefined`. The model sets `current` to null there.

## Model

| member | source | states |
|---|---|---|
| AccountSelection.SelectActivatesExactly | src/context/UserContext.tsx:70-76 | after a selection the set of active positions is exactly {index} when index is inside the list and empty otherwise: exactly one account is active for an index inside the list, none for one outside |
| AccountSelection.SelectKeepsAddresses | src/context/UserContext.tsx:70-76 | a selection keeps the list's length, order and every address; only the flags change |
| AccountSelection.SelectIdempotent | src/context/UserContext.tsx:70-77 | selecting the same index a second time gives the same flags and the same stored address as selecting it once |
| AccountSelection.SelectOutOfRange | src/context/UserContext.tsx:70-76 | with an index outside the list every account ends inactive and the storage slot keeps its old content |
| AccountSelection.LastMatch | src/context/UserContext.tsx:94-99 | the account left current by the restore walk is a position whose address equals the stored address, with no matching position after it; there is none exactly when no address matches |
| AccountSelection.LastMatchUnique | src/context/UserContext.tsx:94-99 | any position that matches and has no match after it is the last match, and "no match anywhere" means there is none; the restore loop relies on this |
| AccountSelection.RestoreActivatesMatches | src/context/UserContext.tsx:94-99 | the restore pass keeps every address in place, and the active positions afterwards are the ones active before plus every position whose address equals the stored one |
| AccountSelection.RestoreCurrentIsActive | src/context/UserContext.tsx:95-97 | the account the restore pass makes current is active afterwards |
| AccountSelection.RestoreWithoutMatch | src/context/UserContext.tsx:94-99 | when no address equals the stored one, the restore pass changes no flag |
| AccountSelection.RestoreActivatesAtMostOne | src/context/UserContext.tsx:94-99 | on a freshly discovered list with distinct addresses, the only account left active is the one made current (one active account), and none is active when nothing matches |
| AccountSelection.RestoreWithRepeatedAddress | src/context/UserContext.tsx:94-99 | two inactive accounts with the same address as the stored one both end active after the restore pass, so two accounts are active |
| AccountSelection.SelectThenRestore | src/context/UserContext.tsx:64-101 | selecting position i in a list with any flags, and then discovering the same accounts afresh (all inactive, distinct addresses, same order) in a new session, makes position i current again and yields the flags the selection left, with exactly one active account |
| AccountSelection.CountIsCardinality | src/context/UserContext.tsx:70-76 | the number of active accounts equals the size of the set of active positions, so "exactly one" and "at most one" read the same whether stated as a count or as a set |
| UserContext.UserSession.constructor | src/context/UserContext.tsx:30-36 | a new provider has no list and no current account; storage holds what an earlier session left there |
| UserContext.UserSession.SelectAccount | src/context/UserContext.tsx:64-79 | without a list nothing changes; with one, the flags become `Selected` of the old flags, storage holds the chosen address (unchanged for an index outside the list), the current account is the object at index (null outside the list), and the list itself is the same |
| UserContext.UserSession.RestoreOnDiscovery | src/context/UserContext.tsx:92-101 | a null result changes nothing; otherwise the flags become `Restored` of the old flags, the current account is the object at the last match or stays as it was, the list is published, and storage is not written |
| UserContext.UserSession.Mount | src/context/UserContext.tsx:44-105 | discovery followed by restore: with no window or no enabled extension the list, the current account and every flag stay as they were; otherwise the account list is published and restored as above |

## Left out

- React plumbing: the context object, the `useUser` hook, `useState`, `useCallback` and the provider component. The state is kept as plain fields, and each state update takes effect at once. The `setCurrentAccount` setter that the context exposes to consumers is a plain field assignment and is not modelled separately.
- The dynamic import of the extension library and the calls to `web3Enable`/`web3Accounts`. These are wallet-extension I/O. `Mount` takes the window check, the number of enabled extensions and the account list as parameters.
- The 300 ms `setTimeout` before discovery. This is timing.
- The `.catch` on the discovery chain. It catches any fault raised in discovery or in the restore callback, logs it and drops that callback's remaining work, so the list may never be published. The model has no faults there, so it never takes this path.
- Storage faults: the model assumes every `localStorage` read and write succeeds. The source calls both unguarded. If the browser blocks storage, `setItem` throws inside the walk of `selectAccount`. The walk then stops after the account at `index` has been set active, later accounts keep their old flags, and `setCurrentAccount` never runs. `getItem` throws inside the restore callback. That fault reaches the `.catch`, so a non-empty discovered list is never published as `injectedAccounts`. Neither partial outcome is modelled.
- Balance fetching and the balance subscribe/unsubscribe effects. They are asynchronous calls to the ledger node whose results are formatted by that library.
- `event.stopPropagation()` in `selectAccount`. This is DOM event handling.
- Account display metadata (name, source). The selection logic never reads or writes it.
- UserContext.UserSession.SelectAccount: the index is an integer. A fractional JavaScript index, which matches no position and reads `undefined`, behaves like an index outside the list but is not modelled.
- UserContext.UserSession.RestoreOnDiscovery: requires the discovered list to hold each account object once. The extension library builds a new object per account, and the model relies on this so that setting one account's flag cannot change another position.
- The page components (`ProposalDetails`, `Welcome`) and the type declarations in `src/pages/types.ts`. They are UI, network reads and types, with no selection logic.
