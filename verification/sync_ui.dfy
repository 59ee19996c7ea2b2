/**
  What the sync panel shows and what its buttons do, derived from the stored
  code and the connection state.
 */
module SyncUI {
  import opened Seqs
  import opened Strings
  import opened SyncCode

  /** Connected, but no device has shared data in this room yet. */
  predicate IsWaitingForDevice(isConnected: bool, hasEverSynced: bool) {
    isConnected && !hasEverSynced
  }

  /** Connected, and data has been shared in this room. */
  predicate IsSynced(isConnected: bool, hasEverSynced: bool) {
    isConnected && hasEverSynced
  }

  /** At most one of the two states holds, and neither while disconnected. */
  lemma WaitingAndSyncedExclusive(isConnected: bool, hasEverSynced: bool)
    ensures !(IsWaitingForDevice(isConnected, hasEverSynced) && IsSynced(isConnected, hasEverSynced))
    ensures !isConnected ==> !IsWaitingForDevice(isConnected, hasEverSynced) && !IsSynced(isConnected, hasEverSynced)
    ensures isConnected ==> IsWaitingForDevice(isConnected, hasEverSynced) || IsSynced(isConnected, hasEverSynced)
  {
  }

  /** `Math.max(0, connectedDevices - 1)`: the devices besides this one. */
  function OtherDevices(connectedDevices: int): (n: nat)
    ensures connectedDevices >= 1 ==> n == connectedDevices - 1
    ensures connectedDevices <= 1 ==> n == 0
  {
    if connectedDevices - 1 > 0 then connectedDevices - 1 else 0
  }

  /** `statusText`. */
  function StatusText(otherDevices: nat): (t: string)
    ensures otherDevices == 0 ==> t == "Synced"
    ensures otherDevices > 0 ==>
      t == NatToString(otherDevices) + " other device" + (if otherDevices > 1 then "s" else "") + " connected"
  {
    if otherDevices > 0 then
      NatToString(otherDevices) + " other device" + (if otherDevices > 1 then "s" else "") + " connected"
    else "Synced"
  }

  /** The count in a status text reads back as the number of other devices, and the noun agrees with it. */
  lemma StatusTextCount(otherDevices: nat)
    requires otherDevices > 0
    ensures var t := StatusText(otherDevices);
            var digits := NatToString(otherDevices);
            && t[..|digits|] == digits
            && ParseDigits(digits) == otherDevices
            && (otherDevices == 1 <==> t[|digits|..] == " other device connected")
  {
    ParseNatToString(otherDevices);
    var digits := NatToString(otherDevices);
    var suffix := if otherDevices > 1 then " other devices connected" else " other device connected";
    var t := StatusText(otherDevices);
    assert t == digits + suffix;
    assert t[..|digits|] == digits;
    assert t[|digits|..] == suffix;
  }

  datatype Label = SyncLabel | WaitingLabel | SyncedLabel

  function LabelText(l: Label): string {
    match l
    case SyncLabel => "Sync"
    case WaitingLabel => "Waiting..."
    case SyncedLabel => "Synced"
  }

  /** `buttonLabel`: off, waiting for a second device, or synced. */
  function ButtonLabel(isEnabled: bool, isConnected: bool, hasEverSynced: bool): (l: Label)
    ensures l == SyncLabel <==> !isEnabled
    ensures l == WaitingLabel <==> isEnabled && IsWaitingForDevice(isConnected, hasEverSynced)
  {
    if !isEnabled then SyncLabel
    else if IsWaitingForDevice(isConnected, hasEverSynced) then WaitingLabel
    else SyncedLabel
  }

  /** `buttonIcon` follows the label. */
  function ButtonIcon(isEnabled: bool, isConnected: bool, hasEverSynced: bool): (icon: string)
    ensures ButtonLabel(isEnabled, isConnected, hasEverSynced) == SyncLabel ==> icon == "i-lucide-cloud-off"
    ensures ButtonLabel(isEnabled, isConnected, hasEverSynced) == WaitingLabel ==>
      icon == "i-lucide-cloud text-primary animate-pulse"
    ensures ButtonLabel(isEnabled, isConnected, hasEverSynced) == SyncedLabel ==> icon == "i-lucide-cloud text-primary"
  {
    if !isEnabled then "i-lucide-cloud-off"
    else if IsWaitingForDevice(isConnected, hasEverSynced) then "i-lucide-cloud text-primary animate-pulse"
    else "i-lucide-cloud text-primary"
  }

  /** The panel's input box. */
  datatype Input = Input(inputCode: string, showInput: bool)

  /**
    `handleEnable`: join with the typed code when the box is shown and holds
    more than white space, otherwise start a fresh generated code.
   */
  function HandleEnable(p: Prefs, ui: Input, draws: seq<real>): (q: Prefs)
    requires |draws| == CodeLength
    requires forall k | 0 <= k < |draws| :: IsDraw(draws[k])
    ensures IsEnabled(q.syncCode)
  {
    if ui.showInput && Trim(ui.inputCode) != "" then Enable(p, Some(Trim(ui.inputCode)), draws)
    else Enable(p, None, draws)
  }

  /** Which code `handleEnable` stores. */
  lemma HandleEnableChoice(p: Prefs, ui: Input, draws: seq<real>)
    requires |draws| == CodeLength
    requires forall k | 0 <= k < |draws| :: IsDraw(draws[k])
    ensures ui.showInput && !IsBlank(ui.inputCode) ==>
      HandleEnable(p, ui, draws).syncCode == Some(ToLower(Trim(ui.inputCode)))
    ensures !ui.showInput || IsBlank(ui.inputCode) ==>
      HandleEnable(p, ui, draws).syncCode == Some(GenerateCode(draws))
  {
    var t := Trim(ui.inputCode);
    TrimBlank(ui.inputCode);
    TrimIdempotent(ui.inputCode);
    EnableChoice(p, Some(t), draws);
    EnableChoice(p, None, draws);
    TrimBlank(t);
  }

  /** `handleJoinEnable`: join with the typed code, or do nothing if it is blank. */
  function HandleJoinEnable(p: Prefs, ui: Input, draws: seq<real>): (q: Prefs)
    requires |draws| == CodeLength
    requires forall k | 0 <= k < |draws| :: IsDraw(draws[k])
  {
    if Trim(ui.inputCode) != "" then Enable(p, Some(Trim(ui.inputCode)), draws) else p
  }

  lemma HandleJoinEnableChoice(p: Prefs, ui: Input, draws: seq<real>)
    requires |draws| == CodeLength
    requires forall k | 0 <= k < |draws| :: IsDraw(draws[k])
    ensures IsBlank(ui.inputCode) ==> HandleJoinEnable(p, ui, draws) == p
    ensures !IsBlank(ui.inputCode) ==>
      HandleJoinEnable(p, ui, draws).syncCode == Some(ToLower(Trim(ui.inputCode)))
  {
    var t := Trim(ui.inputCode);
    TrimBlank(ui.inputCode);
    TrimIdempotent(ui.inputCode);
    EnableChoice(p, Some(t), draws);
    TrimBlank(t);
  }
}
