// A launch of the app driven to its end: it redirects itself to the instance that holds the key, and starts as the
// holder once the holders it met have gone (app/src/Common/InstanceHandover.h).
module LaunchLoop {
  datatype RedirectResult = Taken | Failed | TimedOut | WaitFailed | HolderGone | NotStarted

  datatype Attempt = Attempt(result: RedirectResult, holderExiting: bool)

  datatype LaunchStep = Exit | RegisterAgain | AwaitHolderExitThenRegister | Report

  datatype LaunchResult =
    Holder | HandedOver | NoResponse | Refused | Unreachable | NoStart | StillClosing | RegistrationFailed | Updating

  const LAUNCH_ROUNDS := 4

  function AfterRedirect(attempt: Attempt): LaunchStep {
    if attempt.result == HolderGone then RegisterAgain
    else if attempt.holderExiting then AwaitHolderExitThenRegister
    else if attempt.result == Taken then Exit
    else Report
  }

  function ReportFor(result: RedirectResult): LaunchResult {
    match result
    case Failed => Refused
    case TimedOut => NoResponse
    case WaitFailed => Unreachable
    case NotStarted => NoStart
    case _ => NoResponse
  }

  // What the launch meets in each round: whether an update installs when the round begins and before it waits,
  // whether it owns the key, how its redirect ends, whether the exiting holder's process ends in time, and whether
  // it can register again.
  datatype Round = Round(
    updating: bool, owns: bool, attempt: Attempt, updatingBeforeWait: bool, ends: bool, registers: bool)

  // The holder the round met is gone, and the launch has registered in its place or behind another launch.
  predicate Passed(round: Round) {
    && !round.updating && !round.owns && round.registers
    && (round.attempt.result == HolderGone ||
        (round.attempt.holderExiting && !round.updatingBeforeWait && round.ends))
  }

  // The round redirects to a holder.
  predicate Redirects(round: Round, n: nat) {
    !round.updating && !round.owns && n < LAUNCH_ROUNDS
  }

  // The round redirects to a holder that is exiting.
  predicate MeetsExit(round: Round, n: nat) {
    Redirects(round, n) && round.attempt.result != HolderGone && round.attempt.holderExiting
  }

  // How a launch ends in a round it does not pass.
  predicate EndsAs(round: Round, n: nat, result: LaunchResult) {
    match result
    case Updating => round.updating || (MeetsExit(round, n) && round.updatingBeforeWait)
    case Holder => round.owns && !round.updating
    case StillClosing =>
      || (!round.updating && !round.owns && n == LAUNCH_ROUNDS)
      || (MeetsExit(round, n) && !round.updatingBeforeWait && !round.ends)
    case HandedOver => Redirects(round, n) && round.attempt == Attempt(Taken, false)
    case RegistrationFailed =>
      && Redirects(round, n) && !round.registers
      && (round.attempt.result == HolderGone || (MeetsExit(round, n) && !round.updatingBeforeWait && round.ends))
    // a message, only for a holder that runs, is not exiting and did not take the launch: the redirect failed, was not
    // answered in time, could not be waited for, or could not be started
    case Refused => Redirects(round, n) && round.attempt == Attempt(Failed, false)
    case NoResponse => Redirects(round, n) && round.attempt == Attempt(TimedOut, false)
    case Unreachable => Redirects(round, n) && round.attempt == Attempt(WaitFailed, false)
    case NoStart => Redirects(round, n) && round.attempt == Attempt(NotStarted, false)
  }

  // Every holder met before the last round was waited out, and the last round decides.
  method Launch(rounds: nat -> Round) returns (result: LaunchResult, n: nat)
    ensures n <= LAUNCH_ROUNDS && (forall k: nat | k < n :: Passed(rounds(k)))
    ensures !(n < LAUNCH_ROUNDS && Passed(rounds(n))) && EndsAs(rounds(n), n, result)
  {
    n := 0;
    while true
      invariant n <= LAUNCH_ROUNDS && forall k: nat | k < n :: Passed(rounds(k))
      decreases LAUNCH_ROUNDS - n
    {
      var round := rounds(n);
      if round.updating {
        return Updating, n;
      }
      if round.owns {
        return Holder, n;
      }
      if n == LAUNCH_ROUNDS {
        return StillClosing, n;
      }
      match AfterRedirect(round.attempt) {
        case Exit => return HandedOver, n;
        case Report => return ReportFor(round.attempt.result), n;
        case AwaitHolderExitThenRegister =>
          if round.updatingBeforeWait {
            return Updating, n;
          }
          if !round.ends {
            return StillClosing, n;
          }
        case RegisterAgain =>
      }
      if !round.registers {
        return RegistrationFailed, n;
      }
      n := n + 1;
    }
  }

  // In a round that is not passed, the ways to end exclude one another, so Launch's contract fixes its result.
  lemma EndsOneWay(round: Round, n: nat, a: LaunchResult, b: LaunchResult)
    requires n <= LAUNCH_ROUNDS && !(n < LAUNCH_ROUNDS && Passed(round))
    requires EndsAs(round, n, a) && EndsAs(round, n, b)
    ensures a == b
  {
  }
}
