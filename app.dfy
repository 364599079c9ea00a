/**
  The account registry of the app: the stored account list with its one-time
  migration from the old record shape, adding an account, choosing the
  active one, and what the main area shows for it.
*/
module App {
  import opened Common
  import opened Text
  import opened Types

  datatype Membership = Members | F2p

  datatype GameMode = MainMode | Ironman | Hardcore | Group

  /**
    One account as the stored list holds it. Current records carry
    `membership` and `gameMode`; records of the old shape carry only `type`
    (here `legacyType`), which the migration turns into `membership`.
  */
  datatype StoredAccount = StoredAccount(
    id: string,
    name: string,
    membership: Option<Membership>,
    gameMode: Option<GameMode>,
    legacyType: Option<Membership>)

  /** A current-shape record. */
  function NewAccount(id: string, name: string, membership: Membership, gameMode: GameMode): StoredAccount
  {
    StoredAccount(id, name, Some(membership), Some(gameMode), None)
  }

  /** The accounts used when nothing is stored yet. */
  const DefaultAccounts: seq<StoredAccount> := [
    NewAccount("mont26", "Mont26 (Members)", Members, MainMode),
    NewAccount("feMont26", "Fe Mont26 (F2P)", F2p, Ironman)
  ]

  /** The settings used when nothing is stored yet: "3rd age" items count. */
  const DefaultSettings: AppSettings := AppSettings(true)

  /** `getGameModeIcon`: the badge's alt text for the three ironman modes, none otherwise. */
  function GameModeIcon(gameMode: Option<GameMode>): (r: Option<string>)
    ensures r.Some? <==> gameMode.Some? && gameMode.value != MainMode
    ensures gameMode.Some? && gameMode.value == Ironman ==> r == Some("Ironman Icon")
    ensures gameMode.Some? && gameMode.value == Hardcore ==> r == Some("Hardcore Ironman Icon")
    ensures gameMode.Some? && gameMode.value == Group ==> r == Some("Group Ironman Icon")
  {
    match gameMode
    case Some(Ironman) => Some("Ironman Icon")
    case Some(Hardcore) => Some("Hardcore Ironman Icon")
    case Some(Group) => Some("Group Ironman Icon")
    case _ => None
  }

  // ----- the one-time migration -----

  /** The migration runs when the list is non-empty and its first record has a `type`; it then changes the list. */
  function NeedsMigration(accounts: seq<StoredAccount>): (b: bool)
    ensures b ==> MigrateAll(accounts) != accounts
  {
    |accounts| > 0 && accounts[0].legacyType.Some?
  }

  /** The game mode guessed for an old record: ironman when the lower-cased name mentions "ironman" or "fe". */
  function GuessedMode(name: string): (r: GameMode)
    ensures r == Ironman || r == MainMode
  {
    var lower := ToLower(name);
    if Contains(lower, "ironman") || Contains(lower, "fe") then Ironman else MainMode
  }

  /** One record rebuilt in the current shape; its `type` becomes its membership. */
  function MigrateAccount(acc: StoredAccount): (r: StoredAccount)
    ensures r.id == acc.id && r.name == acc.name
    ensures r.membership == acc.legacyType && r.legacyType.None?
    ensures r.gameMode == Some(GuessedMode(acc.name))
  {
    StoredAccount(acc.id, acc.name, acc.legacyType, Some(GuessedMode(acc.name)), None)
  }

  /** `accounts.map(…)`: every record migrated, in order. */
  function MigrateAll(accounts: seq<StoredAccount>): (r: seq<StoredAccount>)
    ensures |r| == |accounts|
    ensures forall i :: 0 <= i < |accounts| ==> r[i] == MigrateAccount(accounts[i])
  {
    seq(|accounts|, i requires 0 <= i < |accounts| => MigrateAccount(accounts[i]))
  }

  /**
    The mount effect: migrate every record when the first one is of the old
    shape. It keeps the list's length and order and each record's id and
    name; a migrated list takes each membership from the old `type`, gives
    every record a game mode and leaves no `type` behind.
  */
  function Migration(accounts: seq<StoredAccount>): (r: seq<StoredAccount>)
    ensures |r| == |accounts|
    ensures forall i :: 0 <= i < |r| ==> r[i].id == accounts[i].id && r[i].name == accounts[i].name
    ensures NeedsMigration(accounts) ==>
              forall i :: 0 <= i < |r| ==>
                r[i].membership == accounts[i].legacyType && r[i].gameMode.Some? && r[i].legacyType.None?
    ensures !NeedsMigration(accounts) ==> r == accounts
  {
    if NeedsMigration(accounts) then MigrateAll(accounts) else accounts
  }

  /** Running the migration again changes nothing: a migrated list no longer needs it. */
  lemma MigrationOnce(accounts: seq<StoredAccount>)
    ensures !NeedsMigration(Migration(accounts))
    ensures Migration(Migration(accounts)) == Migration(accounts)
  {
  }

  /**
    The guess reads "fe" anywhere in the name: the old default "Fe Mont26"
    becomes an ironman, but so does any name that merely contains those
    letters, while a name without them stays a main account.
  */
  lemma GuessedModeExamples()
    ensures GuessedMode("Fe Mont26 (F2P)") == Ironman
    ensures GuessedMode("Coffee") == Ironman
    ensures GuessedMode("Mont26 (Members)") == MainMode
  {
    assert OccursAt(ToLower("Fe Mont26 (F2P)"), "fe", 0);
    assert OccursAt(ToLower("Coffee"), "fe", 3);
    var lower := ToLower("Mont26 (Members)");
    assert lower == "mont26 (members)";
    forall i ensures !OccursAt(lower, "fe", i) {
      if 0 <= i <= |lower| - 2 {
        assert lower[i..i + 2][0] == lower[i];
      }
    }
    forall i ensures !OccursAt(lower, "ironman", i) {
      if 0 <= i <= |lower| - 7 {
        assert lower[i..i + 7][0] == lower[i];
        assert lower[i..i + 7][1] == lower[i + 1];
      }
    }
  }

  // ----- choosing the account and what the main area shows -----

  /** `accounts.find(acc => acc.id === id)`: the first record with that id. */
  function FindAccount(accounts: seq<StoredAccount>, id: string): (r: Option<StoredAccount>)
    ensures r.Some? ==> r.value in accounts && r.value.id == id
    ensures r.None? <==> forall a :: a in accounts ==> a.id != id
    decreases |accounts|
  {
    if |accounts| == 0 then None
    else if accounts[0].id == id then Some(accounts[0])
    else FindAccount(accounts[1..], id)
  }

  /** The account found is the first one with the id: `find` scans from the front. */
  lemma {:induction false} FindAccountFirst(accounts: seq<StoredAccount>, id: string, k: nat)
    requires k < |accounts| && accounts[k].id == id
    requires forall j :: 0 <= j < k ==> accounts[j].id != id
    ensures FindAccount(accounts, id) == Some(accounts[k])
    decreases k
  {
    if k > 0 {
      var rest := accounts[1..];
      assert forall j :: 0 <= j < k - 1 ==> rest[j] == accounts[j + 1];
      FindAccountFirst(rest, id, k - 1);
    }
  }

  /** `accounts[0]?.id || ''`. */
  function InitialActiveId(accounts: seq<StoredAccount>): (r: string)
    ensures |accounts| > 0 ==> FindAccount(accounts, r) == Some(accounts[0])
    ensures |accounts| == 0 ==> r == ""
  {
    if |accounts| > 0 then accounts[0].id else ""
  }

  /** The two catalogs. */
  datatype Dataset = MembersData | F2pData

  /** Members accounts get the members catalog; every other account, even one without a membership, the free one. */
  function DatasetFor(acc: StoredAccount): (r: Dataset)
    ensures r == MembersData <==> acc.membership == Some(Members)
  {
    if acc.membership == Some(Members) then MembersData else F2pData
  }

  /** The storage key of an account's completion list. */
  function StorageKey(id: string): (r: string)
    ensures |r| == |id| + 15 && r[..15] == "osrs-checklist-" && r[15..] == id
  {
    "osrs-checklist-" + id
  }

  /** Distinct accounts never share a completion list. */
  lemma StorageKeyInjective(a: string, b: string)
    ensures StorageKey(a) == StorageKey(b) <==> a == b
  {
    if StorageKey(a) == StorageKey(b) {
      assert a == StorageKey(a)[15..];
    }
  }

  /** What the main area shows: the checklist of one account, or the "No Account Selected" notice. */
  datatype Screen =
    | ChecklistScreen(key: string, characterName: string, dataset: Dataset, storageKey: string, settings: AppSettings)
    | NoAccountSelected

  /** The main area for a list, an active id and the settings. */
  function ScreenFor(accounts: seq<StoredAccount>, activeId: string, settings: AppSettings): (r: Screen)
    ensures r.NoAccountSelected? <==> forall a :: a in accounts ==> a.id != activeId
    ensures r.ChecklistScreen? ==> r.key == activeId && r.storageKey == StorageKey(activeId) && r.settings == settings
    ensures r.ChecklistScreen? ==>
              var acc := FindAccount(accounts, activeId).value;
              r.characterName == acc.name && (r.dataset == MembersData <==> acc.membership == Some(Members))
  {
    match FindAccount(accounts, activeId)
    case None => NoAccountSelected
    case Some(acc) => ChecklistScreen(acc.id, acc.name, DatasetFor(acc), StorageKey(acc.id), settings)
  }

  /**
    After appending an account, looking up its id finds it when no earlier
    account has that id, and finds the earlier one otherwise.
  */
  lemma {:induction false} FindAfterAppend(accounts: seq<StoredAccount>, acc: StoredAccount)
    ensures (forall a :: a in accounts ==> a.id != acc.id) ==> FindAccount(accounts + [acc], acc.id) == Some(acc)
    ensures FindAccount(accounts, acc.id).Some? ==> FindAccount(accounts + [acc], acc.id) == FindAccount(accounts, acc.id)
    decreases |accounts|
  {
    if |accounts| > 0 {
      assert (accounts + [acc])[1..] == accounts[1..] + [acc];
      FindAfterAppend(accounts[1..], acc);
      assert forall a :: a in accounts[1..] ==> a in accounts;
    }
  }

  /** On first load with nothing stored, the first default account's members checklist is shown. */
  lemma DefaultScreen()
    ensures ScreenFor(DefaultAccounts, InitialActiveId(DefaultAccounts), DefaultSettings) ==
              ChecklistScreen("mont26", "Mont26 (Members)", MembersData, "osrs-checklist-mont26", AppSettings(true))
  {
  }

  /** The app's account state: the stored list, the selected id and the settings. */
  class AppState {
    var accounts: seq<StoredAccount>
    var activeAccountId: string
    var settings: AppSettings

    /** First render: the stored list (or the defaults), the first account selected. */
    constructor (stored: Option<seq<StoredAccount>>, storedSettings: Option<AppSettings>)
      ensures accounts == (if stored.Some? then stored.value else DefaultAccounts)
      ensures activeAccountId == InitialActiveId(accounts)
      ensures settings == (if storedSettings.Some? then storedSettings.value else DefaultSettings)
    {
      accounts := if stored.Some? then stored.value else DefaultAccounts;
      activeAccountId := InitialActiveId(if stored.Some? then stored.value else DefaultAccounts);
      settings := if storedSettings.Some? then storedSettings.value else DefaultSettings;
    }

    /** The account whose checklist is shown, if the selected id names one. */
    function ActiveAccount(): (r: Option<StoredAccount>)
      reads this
      ensures r.Some? ==> r.value in accounts && r.value.id == activeAccountId
    {
      FindAccount(accounts, activeAccountId)
    }

    /** The main area: the active account's checklist, stored under its key, or the notice when none is active. */
    function CurrentScreen(): (r: Screen)
      reads this
      ensures r.NoAccountSelected? <==> ActiveAccount().None?
      ensures r.ChecklistScreen? ==> r.storageKey == StorageKey(activeAccountId) && r.characterName == ActiveAccount().value.name
    {
      ScreenFor(accounts, activeAccountId, settings)
    }

    /** The mount effect: migrate the stored list once; the selection is untouched. */
    method RunMigration()
      modifies this
      ensures accounts == Migration(old(accounts))
      ensures activeAccountId == old(activeAccountId) && settings == old(settings)
      ensures ActiveAccount().Some? <==> old(ActiveAccount()).Some?
    {
      ghost var before := accounts;
      accounts := Migration(accounts);
      forall a | a in before && a.id == activeAccountId
        ensures exists b :: b in accounts && b.id == activeAccountId
      {
        var i :| 0 <= i < |before| && before[i] == a;
        assert accounts[i] in accounts;
      }
      forall b | b in accounts && b.id == activeAccountId
        ensures exists a :: a in before && a.id == activeAccountId
      {
        var i :| 0 <= i < |accounts| && accounts[i] == b;
        assert before[i] in before;
      }
    }

    /**
      `handleSaveAccount`: append one account with id "custom-" followed by
      the clock stamp and select it; earlier accounts are left as they were.
    */
    method SaveAccount(name: string, membership: Membership, gameMode: GameMode, stamp: string)
      modifies this
      ensures accounts == old(accounts) + [NewAccount("custom-" + stamp, name, membership, gameMode)]
      ensures activeAccountId == "custom-" + stamp
      ensures settings == old(settings)
      ensures (forall a :: a in old(accounts) ==> a.id != "custom-" + stamp) ==>
                ActiveAccount() == Some(NewAccount("custom-" + stamp, name, membership, gameMode))
    {
      var acc := NewAccount("custom-" + stamp, name, membership, gameMode);
      FindAfterAppend(accounts, acc);
      accounts := accounts + [acc];
      activeAccountId := acc.id;
    }

    /** An account button's `onClick`: select that account. */
    method SelectAccount(id: string)
      modifies this
      ensures activeAccountId == id
      ensures accounts == old(accounts) && settings == old(settings)
    {
      activeAccountId := id;
    }
  }
}
