/** The greedy player at a session: when it acts next, and the command it gives then. */
module GreedyPlayer {
  import opened Wrappers
  import opened TetrisBoard
  import opened TetrisGame
  import opened TetrisPlanner
  import opened GreedyChoice
  import opened Session
  import opened SessionEngine
  import DropInterval

  datatype Pacing = Pacing(reactionDelayMs: real, commandIntervalMs: real) {
    predicate Valid() {
      reactionDelayMs >= 0.0 && commandIntervalMs > 0.0
    }
  }

  /** What the player says when asked at some time; a time before the last one asked about is refused. */
  datatype Reply<T> = Told(value: Option<T>) | OutOfOrder

  class GreedyTetrisPlayer {
    const session: TetrisSession
    const pacing: Pacing
    var pieceSequence: Option<nat>
    var actionAt: Option<real>
    var lastObservedAt: Option<real>

    predicate Valid()
      reads this
    {
      pacing.Valid() && (pieceSequence.Some? <==> actionAt.Some?)
    }

    predicate Accepts(now: real)
      reads this
    {
      lastObservedAt.Some? ==> lastObservedAt.value <= now
    }

    /** When the player will act on the piece in play: a piece seen for the first time is left alone for the reaction
        delay, and is never acted on earlier than already planned; a piece seen before keeps its time. */
    function DueAt(now: real): real
      requires Valid()
      reads this, session, session.game
    {
      if pieceSequence == Some(session.game.pieceSequence) then actionAt.value
      else DropInterval.Max(now + pacing.reactionDelayMs, if actionAt.Some? then actionAt.value else now)
    }

    constructor (session: TetrisSession, pacing: Pacing)
      requires pacing.Valid()
      ensures Valid() && this.session == session && this.pacing == pacing
      ensures pieceSequence.None? && actionAt.None? && lastObservedAt.None?
    {
      this.session, this.pacing := session, pacing;
      pieceSequence, actionAt, lastObservedAt := None, None, None;
    }

    method Reset()
      requires Valid()
      modifies this`pieceSequence, this`actionAt
      ensures Valid() && pieceSequence.None?
    {
      pieceSequence, actionAt := None, None;
    }

    /** Tells when the player will act, and remembers which piece it has seen. */
    method NextActionAt(now: real) returns (reply: Reply<real>)
      requires Valid()
      modifies this
      ensures Valid()
      ensures reply.OutOfOrder? <==> !old(Accepts(now))
      ensures reply.OutOfOrder? ==> unchanged(this)
      ensures reply.Told? ==>
                && lastObservedAt == Some(now) && reply.value == actionAt
                && (actionAt.Some? <==> session.State().Status() == Playing)
      ensures reply.Told? && actionAt.Some? ==>
                && pieceSequence == Some(session.State().game.pieceSequence) && actionAt.value == old(DueAt(now))
                && if old(pieceSequence) == pieceSequence then actionAt == old(actionAt)
                   else
                     && actionAt.value >= now + pacing.reactionDelayMs
                     && (old(actionAt).Some? ==> actionAt.value >= old(actionAt).value)
                     && (actionAt.value == now + pacing.reactionDelayMs || actionAt == old(actionAt))
    {
      if !Accepts(now) {
        return OutOfOrder;
      }
      lastObservedAt := Some(now);
      if session.State().Status() != Playing {
        Reset();
        return Told(None);
      }
      var sequence := session.game.pieceSequence;
      if pieceSequence != Some(sequence) {
        pieceSequence := Some(sequence);
        var planned := if actionAt.Some? then actionAt.value else now;
        actionAt := Some(if now + pacing.reactionDelayMs > planned then now + pacing.reactionDelayMs else planned);
      }
      reply := Told(actionAt);
    }

    /** A command is given exactly when the action is due, and it is the first command of a best plan for the piece
        where it stands. The session's piece always has one. */
    method NextCommand(now: real) returns (reply: Reply<GameCommand>, ghost plan: Option<Placement>)
      requires Valid() && session.Valid()
      modifies this
      ensures Valid()
      ensures reply.OutOfOrder? <==> !old(Accepts(now))
      ensures reply.Told? ==> lastObservedAt == Some(now)
      ensures reply.Told? && session.State().Status() != Playing ==> reply.value.None? && pieceSequence.None?
      ensures reply.Told? && session.State().Status() == Playing ==>
                pieceSequence == Some(session.State().game.pieceSequence)
      ensures reply.Told? && session.State().Status() == Playing ==>
                && (reply.value.Some? <==> old(DueAt(now)) <= now)
                && actionAt == Some(if reply.value.Some? then now + pacing.commandIntervalMs else old(DueAt(now)))
      ensures reply.Told? && reply.value.Some? ==>
                && session.State().Status() == Playing
                && plan.Some? && IsBest(session.State().game.board, session.State().game.active, plan.value)
                && reply.value == Some(plan.value.commands[0])
    {
      hide IsBest, Collides, NoFullRow, Occupied, Inv;
      plan := None;
      var due := NextActionAt(now);
      if due.OutOfOrder? {
        return OutOfOrder, None;
      }
      if due.value.None? || now < due.value.value {
        return Told(None), None;
      }
      LegalGame(session.State());
      var chosen := ChooseGreedyPlacement(session.game.board, session.game.active);
      plan := chosen;
      BestHasCommands(session.game.board, session.game.active, chosen.value);
      actionAt := Some(now + pacing.commandIntervalMs);
      reply := Told(Some(chosen.value.commands[0]));
    }
  }

  lemma BestHasCommands(board: Board, start: Pose, best: Placement)
    requires IsBest(board, start, best)
    ensures best.commands != []
  {
  }
}
