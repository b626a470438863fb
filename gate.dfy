/**
 * The decisions the command decorators make before a handler runs:
 * `register_command`'s active-bot guard and `require_permission`'s level
 * check. Database lookups arrive as plain inputs.
 */
module Gate {
  import opened Wrappers

  /** Permission levels: 0 ordinary, 1 special, 2 admin, 3 owner. */
  const OwnerLevel := 3

  /** `register_command`'s guard: a non-critical command runs only while the bot is active. */
  function GuardAllows(critical: bool, botActive: bool): (runs: bool)
    ensures critical ==> runs
    ensures !critical ==> (runs <==> botActive)
  {
    !(!critical && !botActive)
  }

  /** `get_user_permission`: 3 for the owner, else the stored level, else 0 when there is no row. */
  function PermissionLevel(userId: int, ownerId: int, stored: Option<int>): (level: int)
    ensures userId == ownerId ==> level == OwnerLevel
    ensures userId != ownerId && stored.None? ==> level == 0
    ensures userId != ownerId && stored.Some? ==> level == stored.value
  {
    if userId == ownerId then OwnerLevel
    else match stored
      case Some(status) => status
      case None => 0
  }

  /** `require_permission(level)`: does the wrapped handler run (true) or is the user refused (false)? */
  function PermissionAllows(userId: int, ownerId: int, stored: Option<int>, level: int): (runs: bool)
    ensures userId == ownerId ==> runs
    ensures userId != ownerId ==> (runs <==> PermissionLevel(userId, ownerId, stored) >= level)
  {
    if userId == ownerId then true
    else !(PermissionLevel(userId, ownerId, stored) < level)
  }

  /** A user admitted at some level is admitted at every lower level: owner-only implies admin-only implies special. */
  lemma PermissionMonotone(userId: int, ownerId: int, stored: Option<int>, level: int, lower: int)
    requires lower <= level
    requires PermissionAllows(userId, ownerId, stored, level)
    ensures PermissionAllows(userId, ownerId, stored, lower)
  {
  }

  /** A user with no permission row only passes commands that require level 0 or less. */
  lemma NoRowMeansOrdinary(userId: int, ownerId: int, level: int)
    requires userId != ownerId
    ensures PermissionAllows(userId, ownerId, None, level) <==> level <= 0
  {
  }

  /** The owner's admin commands that switch the bot. */
  datatype AdminCommand = TurnOff | TurnOn | Other

  /**
   * The stored active flag after the owner sends one command, when the
   * "bot off" handler is registered non-critical and the "bot on" handler
   * with `onIsCritical`. Both require level 3, which the owner passes.
   */
  function ApplyOwnerCommand(active: bool, cmd: AdminCommand, onIsCritical: bool): (after: bool)
    ensures cmd == TurnOff ==> !after
    ensures cmd == TurnOn ==> (after <==> active || onIsCritical)
    ensures cmd == Other ==> after == active
  {
    match cmd
    case TurnOff => if GuardAllows(false, active) then false else active
    case TurnOn => if GuardAllows(onIsCritical, active) then true else active
    case Other => active
  }

  /** The stored flag after a sequence of owner commands; a final "bot off" always leaves the bot off. */
  function RunOwnerCommands(active: bool, cmds: seq<AdminCommand>, onIsCritical: bool): (after: bool)
    ensures |cmds| > 0 && cmds[|cmds| - 1] == TurnOff ==> !after
    ensures (forall i :: 0 <= i < |cmds| ==> cmds[i] == Other) ==> after == active
    decreases |cmds|
  {
    if cmds == [] then active
    else RunOwnerCommands(ApplyOwnerCommand(active, cmds[0], onIsCritical), cmds[1..], onIsCritical)
  }

  /**
   * As registered, "bot on" is not critical, so its own guard refuses it while
   * the bot is off: once off, no sequence of owner commands turns it back on.
   */
  lemma {:induction false} BotOnAsWrittenStaysOff(cmds: seq<AdminCommand>)
    ensures !RunOwnerCommands(false, cmds, false)
    decreases |cmds|
  {
    if cmds != [] {
      BotOnAsWrittenStaysOff(cmds[1..]);
    }
  }

  /** Registered as critical, "bot on" reactivates the bot from any state, after any history. */
  lemma {:induction false} BotOnCriticalReactivates(active: bool, cmds: seq<AdminCommand>)
    ensures RunOwnerCommands(active, cmds + [TurnOn], true)
    decreases |cmds|
  {
    if cmds == [] {
      assert cmds + [TurnOn] == [TurnOn];
    } else {
      assert (cmds + [TurnOn])[1..] == cmds[1..] + [TurnOn];
      BotOnCriticalReactivates(ApplyOwnerCommand(active, cmds[0], true), cmds[1..]);
    }
  }
}
