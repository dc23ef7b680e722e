/** The breadth-first placement planner, and its agreement with the engine in both directions. */
module TetrisPlanner {
  import opened Wrappers
  import opened TetrisBoard
  import opened TetrisGame

  datatype Placement = Placement(commands: seq<GameCommand>, board: Board, linesCleared: nat)

  /** A queue entry: a pose and the commands that lead to it. */
  datatype Entry = Entry(piece: Pose, commands: seq<GameCommand>)

  type Key = (int, int, int)

  const SHIFTS: seq<GameCommand> := [MoveLeft, MoveRight, RotateClockwise]

  function KeyOf(piece: Pose): Key {
    (piece.x, piece.y, piece.rotation)
  }

  predicate IsShift(command: GameCommand) {
    command == MoveLeft || command == MoveRight || command == RotateClockwise
  }

  /** Where one left, right or rotate command takes the piece, if it goes anywhere. */
  function Shifted(board: Board, piece: Pose, command: GameCommand): Option<Pose>
    requires IsShift(command)
  {
    var candidate := match command
      case MoveLeft => Some(piece.(x := piece.x - 1))
      case MoveRight => Some(piece.(x := piece.x + 1))
      case _ => RotatedPiece(board, piece);
    if candidate.Some? && !Collides(board, candidate.value) then candidate else None
  }

  lemma ShiftedIsFree(board: Board, piece: Pose, command: GameCommand)
    requires IsShift(command) && Shifted(board, piece, command).Some?
    ensures var next := Shifted(board, piece, command).value;
            !Collides(board, next) && next.kind == piece.kind && next.y == piece.y
  {
    FirstFreeIsFree(board, piece.(rotation := (piece.rotation + 1) % 4), KICKS);
  }

  /** Where a list of commands leads when every one of them takes effect. */
  function Walk(board: Board, start: Pose, commands: seq<GameCommand>): Option<Pose> {
    if commands == [] then Some(start)
    else
      var last := |commands| - 1;
      match Walk(board, start, commands[..last])
      case None => None
      case Some(piece) => if IsShift(commands[last]) then Shifted(board, piece, commands[last]) else None
  }

  lemma WalkExtends(board: Board, start: Pose, commands: seq<GameCommand>, piece: Pose, command: GameCommand)
    requires Walk(board, start, commands) == Some(piece) && IsShift(command)
    ensures Walk(board, start, commands + [command]) == Shifted(board, piece, command)
  {
    assert (commands + [command])[..|commands|] == commands;
  }

  lemma {:induction false} WalkFromFirst(board: Board, start: Pose, commands: seq<GameCommand>)
    requires commands != [] && Walk(board, start, commands).Some?
    ensures IsShift(commands[0]) && Shifted(board, start, commands[0]).Some?
    ensures Walk(board, Shifted(board, start, commands[0]).value, commands[1..]) == Walk(board, start, commands)
  {
    var last := |commands| - 1;
    if last == 0 {
      assert commands[..0] == [];
    } else {
      WalkFromFirst(board, start, commands[..last]);
      assert commands[..last][1..] == commands[1..][..last - 1];
      assert commands[1..][last - 1] == commands[last];
    }
  }

  lemma {:induction false} WalkPrepends(board: Board, start: Pose, command: GameCommand, commands: seq<GameCommand>)
    requires IsShift(command) && Shifted(board, start, command).Some?
    ensures Walk(board, start, [command] + commands) == Walk(board, Shifted(board, start, command).value, commands)
  {
    var all := [command] + commands;
    var last := |commands|;
    if commands == [] {
      assert all[..0] == [] && all == [command];
    } else {
      WalkPrepends(board, start, command, commands[..last - 1]);
      assert all[..last] == [command] + commands[..last - 1];
    }
  }

  lemma {:induction false} WalkKeeps(board: Board, start: Pose, commands: seq<GameCommand>)
    requires Walk(board, start, commands).Some?
    ensures var piece := Walk(board, start, commands).value;
            piece.kind == start.kind && piece.y == start.y && (!Collides(board, start) ==> !Collides(board, piece))
  {
    if commands != [] {
      var before := commands[..|commands| - 1];
      WalkKeeps(board, start, before);
      ShiftedIsFree(board, Walk(board, start, before).value, commands[|commands| - 1]);
    }
  }

  /** The placement records what the engine would leave behind if the piece were dropped from this pose. */
  ghost predicate LandsAs(board: Board, piece: Pose, placement: Placement) {
    && !Collides(board, piece)
    && var rest := Landing(board, piece);
       LandingRests(board, piece);
       LandingIsWritable(board, rest);
       && !ReachesAbove(Cells(rest))
       && placement.board == ClearedBoard(Stamp(board, Cells(rest), piece.kind)).board
       && placement.linesCleared == ClearedBoard(Stamp(board, Cells(rest), piece.kind)).lines
  }

  lemma LandingIsWritable(board: Board, rest: Pose)
    requires !Collides(board, rest)
    ensures var cells := Cells(rest);
            forall i :: 0 <= i < 4 ==> 0 <= cells[i].x < BOARD_WIDTH && cells[i].y < BOARD_HEIGHT
  {
    var cells := Cells(rest);
    assert forall i :: 0 <= i < 4 ==> !Blocked(board, cells[i]);
  }

  ghost predicate IsPlanned(board: Board, start: Pose, placement: Placement) {
    && placement.commands != []
    && var walk := placement.commands[..|placement.commands| - 1];
       && placement.commands == walk + [HardDrop]
       && Walk(board, start, walk).Some?
       && LandsAs(board, Walk(board, start, walk).value, placement)
  }

  // ---------------------------------------------------------------- which list comes first

  function Rank(command: GameCommand): nat {
    match command
    case MoveLeft => 0
    case MoveRight => 1
    case RotateClockwise => 2
    case _ => 3
  }

  /** The lists first differ here, and the first one has the command that is tried earlier. */
  ghost predicate IsEarlierAt(one: seq<GameCommand>, other: seq<GameCommand>, i: nat) {
    i < |one| && i < |other| && one[..i] == other[..i] && Rank(one[i]) < Rank(other[i])
  }

  /** Shorter lists come first; among equally long ones, left is tried before right, and right before rotating. */
  ghost predicate Sooner(one: seq<GameCommand>, other: seq<GameCommand>) {
    |one| < |other| || (|one| == |other| && exists i: nat :: IsEarlierAt(one, other, i))
  }

  ghost predicate NotLater(one: seq<GameCommand>, other: seq<GameCommand>) {
    one == other || Sooner(one, other)
  }

  lemma SoonerIsTransitive(one: seq<GameCommand>, two: seq<GameCommand>, three: seq<GameCommand>)
    requires NotLater(one, two) && NotLater(two, three)
    ensures NotLater(one, three)
    ensures Sooner(one, two) || Sooner(two, three) ==> Sooner(one, three)
  {
    if one != two && two != three && |one| == |two| == |three| {
      var i: nat :| IsEarlierAt(one, two, i);
      var j: nat :| IsEarlierAt(two, three, j);
      var first := if i < j then i else j;
      assert one[..first] == one[..i][..first] && two[..first] == two[..i][..first] == two[..j][..first];
      assert three[..first] == three[..j][..first];
      assert i < j ==> two[..j][i] == three[..j][i];
      assert j < i ==> one[..i][j] == two[..i][j];
      assert IsEarlierAt(one, three, first);
    }
  }

  lemma SoonerIsNotMutual(one: seq<GameCommand>, other: seq<GameCommand>)
    requires NotLater(one, other) && NotLater(other, one)
    ensures one == other
  {
    SoonerIsTransitive(one, other, one);
  }

  /** Whatever is appended, the order of what comes before decides. */
  lemma AppendingKeepsOrder(one: seq<GameCommand>, other: seq<GameCommand>, c: GameCommand, d: GameCommand)
    ensures Sooner(one, other) ==> Sooner(one + [c], other + [d])
    ensures Rank(c) < Rank(d) ==> Sooner(one + [c], one + [d])
    ensures NotLater(one, other) ==> NotLater(one + [c], other + [c])
  {
    if Sooner(one, other) && |one| == |other| {
      var i: nat :| IsEarlierAt(one, other, i);
      assert (one + [c])[..i] == one[..i] && (other + [d])[..i] == other[..i] && (other + [c])[..i] == other[..i];
      assert IsEarlierAt(one + [c], other + [d], i) && IsEarlierAt(one + [c], other + [c], i);
    }
    if Rank(c) < Rank(d) {
      assert (one + [c])[..|one|] == one == (one + [d])[..|one|];
      assert IsEarlierAt(one + [c], one + [d], |one|);
    }
  }

  lemma PrependingKeepsOrder(command: GameCommand, one: seq<GameCommand>, other: seq<GameCommand>)
    requires NotLater([command] + one, [command] + other)
    ensures NotLater(one, other)
  {
    var (first, second) := ([command] + one, [command] + other);
    if first == second {
      assert one == first[1..] && other == second[1..];
    } else if |one| == |other| {
      var i: nat :| IsEarlierAt(first, second, i);
      assert i > 0 && one[..i - 1] == first[..i][1..] && other[..i - 1] == second[..i][1..];
      assert IsEarlierAt(one, other, i - 1);
    }
  }

  /** No walk to the same pose comes before this one. */
  ghost predicate IsLeastWalk(board: Board, start: Pose, walk: seq<GameCommand>) {
    forall other :: Walk(board, start, walk).Some? && Walk(board, start, other) == Walk(board, start, walk) ==>
      NotLater(walk, other)
  }

  ghost predicate Offers(board: Board, piece: Pose, walk: seq<GameCommand>, placements: seq<Placement>) {
    exists k :: 0 <= k < |placements| && LandsAs(board, piece, placements[k])
                && NotLater(placements[k].commands, walk + [HardDrop])
  }

  ghost predicate InOrder(placements: seq<Placement>) {
    forall k, l :: 0 <= k < l < |placements| ==> Sooner(placements[k].commands, placements[l].commands)
  }

  /** Sound: every placement is a drop after the first of all walks to its pose. Complete: every pose that any walk
      reaches has its drop on the list, no later than by that walk. And the list is in order, so it is determined. */
  ghost predicate AllPlacements(board: Board, start: Pose, placements: seq<Placement>) {
    && (forall k :: 0 <= k < |placements| ==>
          && IsPlanned(board, start, placements[k])
          && IsLeastWalk(board, start, placements[k].commands[..|placements[k].commands| - 1]))
    && (forall walk :: Walk(board, start, walk).Some? ==>
          Offers(board, Walk(board, start, walk).value, walk, placements))
    && InOrder(placements)
  }

  // ---------------------------------------------------------------- the search

  function SuccessorsFrom(board: Board, entry: Entry, shifts: seq<GameCommand>): seq<Entry>
    requires forall i :: 0 <= i < |shifts| ==> IsShift(shifts[i])
  {
    if shifts == [] then []
    else
      var rest := SuccessorsFrom(board, entry, shifts[1..]);
      match Shifted(board, entry.piece, shifts[0])
      case None => rest
      case Some(next) => [Entry(next, entry.commands + [shifts[0]])] + rest
  }

  method Enqueue(board: Board, entry: Entry, queue: seq<Entry>) returns (longer: seq<Entry>)
    ensures longer == queue + SuccessorsFrom(board, entry, SHIFTS)
  {
    longer := queue;
    var shifts := SHIFTS;
    for i := 0 to 3
      invariant longer + SuccessorsFrom(board, entry, shifts[i..]) == queue + SuccessorsFrom(board, entry, SHIFTS)
    {
      assert shifts[i..][1..] == shifts[i + 1..];
      var candidate := Shifted(board, entry.piece, shifts[i]);
      if candidate.Some? {
        longer := longer + [Entry(candidate.value, entry.commands + [shifts[i]])];
      }
    }
  }

  lemma {:induction false} SuccessorsAreShifts(board: Board, entry: Entry, shifts: seq<GameCommand>)
    requires forall i :: 0 <= i < |shifts| ==> IsShift(shifts[i])
    ensures forall next <- SuccessorsFrom(board, entry, shifts) ::
              exists c :: c in shifts && Shifted(board, entry.piece, c) == Some(next.piece)
                          && next.commands == entry.commands + [c]
    ensures forall c <- shifts :: Shifted(board, entry.piece, c).Some? ==>
              Entry(Shifted(board, entry.piece, c).value, entry.commands + [c]) in SuccessorsFrom(board, entry, shifts)
  {
    if shifts != [] { SuccessorsAreShifts(board, entry, shifts[1..]); }
  }

  ghost predicate Ascend(entries: seq<Entry>) {
    forall i, j :: 0 <= i < j < |entries| ==> Sooner(entries[i].commands, entries[j].commands)
  }

  lemma {:induction false} SuccessorsAscend(board: Board, entry: Entry, shifts: seq<GameCommand>)
    requires forall i :: 0 <= i < |shifts| ==> IsShift(shifts[i])
    requires forall i, j :: 0 <= i < j < |shifts| ==> Rank(shifts[i]) < Rank(shifts[j])
    ensures Ascend(SuccessorsFrom(board, entry, shifts))
  {
    hide Sooner, Shifted;
    if shifts != [] {
      var rest := SuccessorsFrom(board, entry, shifts[1..]);
      SuccessorsAscend(board, entry, shifts[1..]);
      SuccessorsAreShifts(board, entry, shifts[1..]);
      forall next | next in rest
        ensures Sooner(entry.commands + [shifts[0]], next.commands)
      {
        var c :| c in shifts[1..] && next.commands == entry.commands + [c];
        AppendingKeepsOrder(entry.commands, entry.commands, shifts[0], c);
      }
      var next := Shifted(board, entry.piece, shifts[0]);
      if next.Some? { FirstAscends(Entry(next.value, entry.commands + [shifts[0]]), rest); }
    }
  }

  lemma FirstAscends(first: Entry, rest: seq<Entry>)
    requires Ascend(rest) && forall next <- rest :: Sooner(first.commands, next.commands)
    ensures Ascend([first] + rest)
  {
    hide Sooner;
  }

  /** Lets the piece fall and writes it down; None when it sticks out above the board. */
  method Project(board: Board, piece: Pose) returns (projected: Option<Board>)
    requires !Collides(board, piece)
    ensures var cells := Cells(Landing(board, piece));
            && (projected.None? <==> ReachesAbove(cells))
            && (projected.Some? ==>
                  && (forall i :: 0 <= i < 4 ==> 0 <= cells[i].x < BOARD_WIDTH && cells[i].y < BOARD_HEIGHT)
                  && projected.value == Stamp(board, cells, piece.kind))
  {
    LandingRests(board, piece);
    var landing := piece;
    while !Collides(board, Down(landing))
      invariant Landing(board, landing) == Landing(board, piece)
      invariant landing.kind == piece.kind && !Collides(board, landing)
      decreases BOARD_HEIGHT - landing.y
    {
      assert !Blocked(board, Cells(Down(landing))[0]);
      landing := Down(landing);
    }
    var cells := Cells(landing);
    LandingIsWritable(board, landing);
    var drawn := board;
    ghost var stamped := Stamp(board, cells, piece.kind);
    for i := 0 to 4
      invariant forall j :: 0 <= j < i ==> cells[j].y >= 0
      invariant Stamp(drawn, cells[i..], piece.kind) == stamped
    {
      if cells[i].y < 0 {
        return None;
      }
      assert cells[i..][1..] == cells[i + 1..];
      drawn := SetCell(drawn, cells[i], piece.kind);
    }
    projected := Some(drawn);
  }

  /** The poses a free piece can stand in at one height: the search space is finite. */
  function KeySpace(y: int): set<Key> {
    set x, r | -3 <= x < BOARD_WIDTH && 0 <= r < 4 :: (x, y, r)
  }

  lemma FreePieceHasKey(board: Board, piece: Pose)
    requires !Collides(board, piece)
    ensures KeyOf(piece) in KeySpace(piece.y)
  {
    assert !Blocked(board, Cells(piece)[0]);
  }

  /** A walk for each pose, such that no single shift from another pose gives an earlier one. */
  ghost predicate Settled(board: Board, start: Pose, walks: map<Pose, seq<GameCommand>>) {
    && start in walks && walks[start] == []
    && forall piece, c :: piece in walks && IsShift(c) && Shifted(board, piece, c).Some? ==>
         && Shifted(board, piece, c).value in walks
         && NotLater(walks[Shifted(board, piece, c).value], walks[piece] + [c])
  }

  lemma {:induction false} NoWalkIsSooner(board: Board, start: Pose, walks: map<Pose, seq<GameCommand>>,
                                          walk: seq<GameCommand>)
    requires Settled(board, start, walks) && Walk(board, start, walk).Some?
    ensures Walk(board, start, walk).value in walks
    ensures NotLater(walks[Walk(board, start, walk).value], walk)
  {
    hide Sooner, NotLater, Shifted;
    if walk == [] {
      assert NotLater([], []) by { NothingIsFirst([]); }
    } else {
      var (before, last) := (walk[..|walk| - 1], walk[|walk| - 1]);
      NoWalkIsSooner(board, start, walks, before);
      var piece := Walk(board, start, before).value;
      assert walk == before + [last];
      AppendingKeepsOrder(walks[piece], before, last, last);
      SoonerIsTransitive(walks[Walk(board, start, walk).value], walks[piece] + [last], walk);
    }
  }

  lemma NothingIsFirst(walk: seq<GameCommand>)
    ensures NotLater([], walk) && (NotLater(walk, []) ==> walk == [])
  {
  }

  /** The queue in the middle of the search: walks from the start, in order, each of them one shift longer than that of
      an entry that has been taken from it. */
  ghost predicate Frontier(board: Board, start: Pose, queue: seq<Entry>, index: nat) {
    && 0 < |queue| && index <= |queue|
    && queue[0] == Entry(start, [])
    && (forall i :: 0 <= i < |queue| ==> Walk(board, start, queue[i].commands) == Some(queue[i].piece))
    && Ascend(queue)
    && (forall j :: 0 < j < |queue| ==> HasParent(queue, index, queue[j].commands))
  }

  ghost predicate HasParent(queue: seq<Entry>, index: nat, walk: seq<GameCommand>)
    requires index <= |queue|
  {
    exists k: nat, c :: k < index && ExtendsBy(queue[k].commands, c, walk)
  }

  predicate ExtendsBy(shorter: seq<GameCommand>, command: GameCommand, longer: seq<GameCommand>) {
    longer == shorter + [command]
  }

  /** Every popped pose has a walk, that of the first entry with this pose. */
  ghost predicate Recorded(queue: seq<Entry>, index: nat, walks: map<Pose, seq<GameCommand>>)
    requires index <= |queue|
  {
    && (forall i :: 0 <= i < index ==>
          queue[i].piece in walks && NotLater(walks[queue[i].piece], queue[i].commands))
    && (forall piece <- walks :: IsPopped(queue, index, Entry(piece, walks[piece])))
  }

  ghost predicate IsPopped(queue: seq<Entry>, index: nat, entry: Entry)
    requires index <= |queue|
  {
    exists i :: 0 <= i < index && queue[i] == entry
  }

  ghost predicate SuccessorsQueued(board: Board, queue: seq<Entry>, walks: map<Pose, seq<GameCommand>>) {
    forall piece, c :: piece in walks && IsShift(c) && Shifted(board, piece, c).Some? ==>
      Entry(Shifted(board, piece, c).value, walks[piece] + [c]) in queue
  }

  ghost predicate Offered(board: Board, walks: map<Pose, seq<GameCommand>>, placements: seq<Placement>) {
    && (forall piece <- walks :: Offers(board, piece, walks[piece], placements))
    && (forall k :: 0 <= k < |placements| ==> IsDropOf(walks, placements[k]))
  }

  ghost predicate IsDropOf(walks: map<Pose, seq<GameCommand>>, placement: Placement) {
    exists piece <- walks :: ExtendsBy(walks[piece], HardDrop, placement.commands)
  }

  /** What has been visited so far, and that each visited pose has its placement and its successors in the queue. */
  ghost predicate Explored(board: Board, queue: seq<Entry>, index: nat, walks: map<Pose, seq<GameCommand>>,
                           placements: seq<Placement>)
    requires index <= |queue|
  {
    && Recorded(queue, index, walks)
    && SuccessorsQueued(board, queue, walks)
    && Offered(board, walks, placements)
    && InOrder(placements)
  }

  lemma FrontierGrows(board: Board, start: Pose, queue: seq<Entry>, index: nat)
    requires Frontier(board, start, queue, index) && index < |queue|
    ensures Frontier(board, start, queue + SuccessorsFrom(board, queue[index], SHIFTS), index + 1)
  {
    hide Walk, Shifted, SuccessorsFrom, Collides, Sooner;
    var entry := queue[index];
    var more := SuccessorsFrom(board, entry, SHIFTS);
    var longer := queue + more;
    SuccessorsAreShifts(board, entry, SHIFTS);
    SuccessorsAscend(board, entry, SHIFTS);
    assert longer[index] == entry;
    forall j | 0 <= j < |longer|
      ensures Walk(board, start, longer[j].commands) == Some(longer[j].piece)
      ensures j > 0 ==> HasParent(longer, index + 1, longer[j].commands)
      ensures j >= |queue| ==> forall i :: 0 <= i < |queue| ==> Sooner(queue[i].commands, longer[j].commands)
    {
      if j >= |queue| {
        assert longer[j] in more;
        var c :| c in SHIFTS && Shifted(board, entry.piece, c) == Some(longer[j].piece)
                 && longer[j].commands == entry.commands + [c];
        assert ExtendsBy(longer[index].commands, c, longer[j].commands);
        WalkExtends(board, start, entry.commands, entry.piece, c);
        QueueComesBefore(board, start, queue, index, c);
      } else if j > 0 {
        ParentStays(queue, more, index, queue[j].commands);
      }
    }
  }

  lemma ParentStays(queue: seq<Entry>, more: seq<Entry>, index: nat, walk: seq<GameCommand>)
    requires index < |queue| && HasParent(queue, index, walk)
    ensures HasParent(queue + more, index + 1, walk)
  {
    var k: nat, c :| k < index && ExtendsBy(queue[k].commands, c, walk);
    assert (queue + more)[k] == queue[k];
  }

  /** Successors of the entry that is taken come after all that is waiting. */
  lemma QueueComesBefore(board: Board, start: Pose, queue: seq<Entry>, index: nat, command: GameCommand)
    requires Frontier(board, start, queue, index) && index < |queue|
    ensures forall i :: 0 <= i < |queue| ==> Sooner(queue[i].commands, queue[index].commands + [command])
  {
    hide Walk, Sooner;
    var next := queue[index].commands + [command];
    forall i | 0 <= i < |queue|
      ensures Sooner(queue[i].commands, next)
    {
      if i <= index {
        LongerIsLater(queue[index].commands, command);
        SoonerIsTransitive(queue[i].commands, queue[index].commands, next);
      } else {
        var k: nat, c :| k < index && ExtendsBy(queue[k].commands, c, queue[i].commands);
        AppendingKeepsOrder(queue[k].commands, queue[index].commands, c, command);
      }
    }
  }

  lemma LongerIsLater(walk: seq<GameCommand>, command: GameCommand)
    ensures Sooner(walk, walk + [command])
  {
  }

  lemma SuccessorsQueuedGrows(board: Board, entry: Entry, queue: seq<Entry>, walks: map<Pose, seq<GameCommand>>)
    requires SuccessorsQueued(board, queue, walks) && entry.piece !in walks
    ensures SuccessorsQueued(board, queue + SuccessorsFrom(board, entry, SHIFTS), walks[entry.piece := entry.commands])
  {
    hide Shifted, SuccessorsFrom;
    SuccessorsAreShifts(board, entry, SHIFTS);
    forall c | IsShift(c)
      ensures c in SHIFTS
    {
      assert c == SHIFTS[0] || c == SHIFTS[1] || c == SHIFTS[2];
    }
  }

  lemma OfferedGrows(board: Board, entry: Entry, walks: map<Pose, seq<GameCommand>>, placements: seq<Placement>,
                     placement: Placement)
    requires Offered(board, walks, placements) && entry.piece !in walks
    requires LandsAs(board, entry.piece, placement) && placement.commands == entry.commands + [HardDrop]
    ensures Offered(board, walks[entry.piece := entry.commands], placements + [placement])
  {
    hide LandsAs, Sooner, Offers, IsDropOf;
    var (after, more) := (walks[entry.piece := entry.commands], placements + [placement]);
    forall piece | piece in after
      ensures Offers(board, piece, after[piece], more)
    {
      OffersGrow(board, piece, after[piece], placements, placement);
    }
    forall k | 0 <= k < |more|
      ensures IsDropOf(after, more[k])
    {
      DropsGrow(entry, walks, more[k]);
    }
  }

  lemma OffersGrow(board: Board, piece: Pose, walk: seq<GameCommand>, placements: seq<Placement>, more: Placement)
    ensures Offers(board, piece, walk, placements) ==> Offers(board, piece, walk, placements + [more])
    ensures LandsAs(board, piece, more) && more.commands == walk + [HardDrop] ==>
              Offers(board, piece, walk, placements + [more])
  {
    hide LandsAs, Sooner;
    assert (placements + [more])[|placements|] == more;
    if Offers(board, piece, walk, placements) {
      var k :| 0 <= k < |placements| && LandsAs(board, piece, placements[k])
               && NotLater(placements[k].commands, walk + [HardDrop]);
      assert (placements + [more])[k] == placements[k];
    }
  }

  lemma DropsGrow(entry: Entry, walks: map<Pose, seq<GameCommand>>, placement: Placement)
    requires entry.piece !in walks
    requires IsDropOf(walks, placement) || placement.commands == entry.commands + [HardDrop]
    ensures IsDropOf(walks[entry.piece := entry.commands], placement)
  {
    var after := walks[entry.piece := entry.commands];
    if IsDropOf(walks, placement) {
      var piece :| piece in walks && ExtendsBy(walks[piece], HardDrop, placement.commands);
      assert piece in after && after[piece] == walks[piece];
    } else {
      assert entry.piece in after && ExtendsBy(after[entry.piece], HardDrop, placement.commands);
    }
  }

  /** A placement that is added comes after all there are, since its entry comes after all that have been taken. */
  lemma OrderGrows(board: Board, start: Pose, queue: seq<Entry>, index: nat, walks: map<Pose, seq<GameCommand>>,
                   placements: seq<Placement>, placement: Placement)
    requires Frontier(board, start, queue, index) && index < |queue| && Recorded(queue, index, walks)
    requires Offered(board, walks, placements) && InOrder(placements)
    requires placement.commands == queue[index].commands + [HardDrop]
    ensures InOrder(placements + [placement])
  {
    hide Walk, Sooner, LandsAs, Frontier, Recorded, Offers;
    forall k | 0 <= k < |placements|
      ensures Sooner(placements[k].commands, placement.commands)
    {
      assert IsDropOf(walks, placements[k]);
      var piece :| piece in walks && ExtendsBy(walks[piece], HardDrop, placements[k].commands);
      RecordedComesBefore(board, start, queue, index, walks, piece);
      AppendingKeepsOrder(walks[piece], queue[index].commands, HardDrop, HardDrop);
    }
  }

  lemma RecordedComesBefore(board: Board, start: Pose, queue: seq<Entry>, index: nat,
                            walks: map<Pose, seq<GameCommand>>, piece: Pose)
    requires Frontier(board, start, queue, index) && index < |queue| && Recorded(queue, index, walks) && piece in walks
    ensures Sooner(walks[piece], queue[index].commands)
  {
    hide Walk, Sooner, HasParent;
    assert IsPopped(queue, index, Entry(piece, walks[piece]));
  }

  lemma RecordedGrows(queue: seq<Entry>, index: nat, walks: map<Pose, seq<GameCommand>>, more: seq<Entry>)
    requires index < |queue| && Recorded(queue, index, walks) && queue[index].piece !in walks
    ensures Recorded(queue + more, index + 1, walks[queue[index].piece := queue[index].commands])
  {
    hide Sooner;
    var (longer, after) := (queue + more, walks[queue[index].piece := queue[index].commands]);
    assert forall i :: 0 <= i <= index ==> longer[i] == queue[i];
    forall piece | piece in after
      ensures IsPopped(longer, index + 1, Entry(piece, after[piece]))
    {
      if piece == queue[index].piece {
        assert longer[index] == Entry(piece, after[piece]);
      } else {
        assert IsPopped(queue, index, Entry(piece, walks[piece]));
      }
    }
  }

  lemma ExploredGrows(board: Board, start: Pose, queue: seq<Entry>, index: nat, walks: map<Pose, seq<GameCommand>>,
                      placements: seq<Placement>, placement: Placement)
    requires Frontier(board, start, queue, index) && index < |queue|
    requires Explored(board, queue, index, walks, placements)
    requires queue[index].piece !in walks
    requires LandsAs(board, queue[index].piece, placement)
    requires placement.commands == queue[index].commands + [HardDrop]
    ensures Explored(board, queue + SuccessorsFrom(board, queue[index], SHIFTS), index + 1,
                     walks[queue[index].piece := queue[index].commands], placements + [placement])
  {
    hide LandsAs, SuccessorsQueued, Offered, Walk, SuccessorsFrom, Sooner, Recorded, InOrder, Frontier;
    RecordedGrows(queue, index, walks, SuccessorsFrom(board, queue[index], SHIFTS));
    SuccessorsQueuedGrows(board, queue[index], queue, walks);
    OfferedGrows(board, queue[index], walks, placements, placement);
    OrderGrows(board, start, queue, index, walks, placements, placement);
  }

  lemma NothingExplored(board: Board, start: Pose)
    ensures Frontier(board, start, [Entry(start, [])], 0)
    ensures Explored(board, [Entry(start, [])], 0, map[], [])
  {
  }

  lemma ExploredSkips(board: Board, start: Pose, queue: seq<Entry>, index: nat, walks: map<Pose, seq<GameCommand>>,
                      placements: seq<Placement>)
    requires Frontier(board, start, queue, index) && index < |queue|
    requires Explored(board, queue, index, walks, placements)
    requires queue[index].piece in walks
    ensures Explored(board, queue, index + 1, walks, placements)
    ensures Frontier(board, start, queue, index + 1)
  {
    hide Frontier, Recorded, SuccessorsQueued, Offered, InOrder;
    RecordedSkips(board, start, queue, index, walks);
    FrontierSkips(board, start, queue, index);
  }

  lemma RecordedSkips(board: Board, start: Pose, queue: seq<Entry>, index: nat, walks: map<Pose, seq<GameCommand>>)
    requires Frontier(board, start, queue, index) && index < |queue| && Recorded(queue, index, walks)
    requires queue[index].piece in walks
    ensures Recorded(queue, index + 1, walks)
  {
    hide Frontier, Sooner;
    RecordedComesBefore(board, start, queue, index, walks, queue[index].piece);
    forall piece | piece in walks
      ensures IsPopped(queue, index + 1, Entry(piece, walks[piece]))
    {
      assert IsPopped(queue, index, Entry(piece, walks[piece]));
    }
  }

  lemma FrontierSkips(board: Board, start: Pose, queue: seq<Entry>, index: nat)
    requires Frontier(board, start, queue, index) && index < |queue|
    ensures Frontier(board, start, queue, index + 1)
  {
    hide Walk, Sooner, HasParent;
    assert queue + [] == queue;
    forall j | 0 < j < |queue|
      ensures HasParent(queue, index + 1, queue[j].commands)
    {
      ParentStays(queue, [], index, queue[j].commands);
    }
  }

  lemma QueueIsSettled(board: Board, start: Pose, queue: seq<Entry>, walks: map<Pose, seq<GameCommand>>)
    requires Frontier(board, start, queue, |queue|) && Recorded(queue, |queue|, walks)
    requires SuccessorsQueued(board, queue, walks)
    ensures Settled(board, start, walks)
  {
    hide Walk, Sooner, Shifted, NotLater;
    assert queue[0].piece in walks;
    NothingIsFirst(walks[start]);
  }

  lemma WalkIsOffered(board: Board, start: Pose, walks: map<Pose, seq<GameCommand>>, placements: seq<Placement>,
                      walk: seq<GameCommand>)
    requires Settled(board, start, walks) && Offered(board, walks, placements) && Walk(board, start, walk).Some?
    ensures Offers(board, Walk(board, start, walk).value, walk, placements)
  {
    hide Settled, LandsAs, Sooner, NotLater, Walk, IsDropOf;
    NoWalkIsSooner(board, start, walks, walk);
    var piece := Walk(board, start, walk).value;
    assert Offers(board, piece, walks[piece], placements);
    var k :| 0 <= k < |placements| && LandsAs(board, piece, placements[k])
             && NotLater(placements[k].commands, walks[piece] + [HardDrop]);
    AppendingKeepsOrder(walks[piece], walk, HardDrop, HardDrop);
    SoonerIsTransitive(placements[k].commands, walks[piece] + [HardDrop], walk + [HardDrop]);
  }

  lemma OfferedIsLeast(board: Board, start: Pose, queue: seq<Entry>, walks: map<Pose, seq<GameCommand>>,
                       placements: seq<Placement>, k: nat)
    requires Frontier(board, start, queue, |queue|) && Recorded(queue, |queue|, walks)
    requires Settled(board, start, walks) && Offered(board, walks, placements) && k < |placements|
    requires placements[k].commands != []
    ensures IsLeastWalk(board, start, placements[k].commands[..|placements[k].commands| - 1])
  {
    hide Settled, LandsAs, Sooner, NotLater, Walk, HasParent, Offers;
    var commands := placements[k].commands;
    assert IsDropOf(walks, placements[k]);
    var piece :| piece in walks && ExtendsBy(walks[piece], HardDrop, commands);
    assert commands[..|commands| - 1] == walks[piece];
    assert IsPopped(queue, |queue|, Entry(piece, walks[piece]));
    forall other | Walk(board, start, walks[piece]).Some? && Walk(board, start, other) == Some(piece)
      ensures NotLater(walks[piece], other)
    {
      NoWalkIsSooner(board, start, walks, other);
    }
  }

  lemma SearchIsComplete(board: Board, start: Pose, queue: seq<Entry>, walks: map<Pose, seq<GameCommand>>,
                         placements: seq<Placement>)
    requires Frontier(board, start, queue, |queue|)
    requires Explored(board, queue, |queue|, walks, placements)
    requires forall k :: 0 <= k < |placements| ==> IsPlanned(board, start, placements[k])
    ensures AllPlacements(board, start, placements)
  {
    hide Frontier, Recorded, Settled, SuccessorsQueued, LandsAs, Sooner, NotLater, Walk, Offered, InOrder, IsLeastWalk;
    QueueIsSettled(board, start, queue, walks);
    forall walk | Walk(board, start, walk).Some?
      ensures Offers(board, Walk(board, start, walk).value, walk, placements)
    {
      WalkIsOffered(board, start, walks, placements, walk);
    }
    forall k | 0 <= k < |placements|
      ensures IsLeastWalk(board, start, placements[k].commands[..|placements[k].commands| - 1])
    {
      OfferedIsLeast(board, start, queue, walks, placements, k);
    }
  }

  /** The placement at the end of a queue entry; None when the landing sticks out above the board. */
  method Plan(board: Board, start: Pose, entry: Entry) returns (placement: Option<Placement>)
    requires !Collides(board, entry.piece)
    requires Walk(board, start, entry.commands) == Some(entry.piece)
    ensures placement.None? ==> entry.piece.y < 0
    ensures placement.Some? ==>
              && IsPlanned(board, start, placement.value)
              && LandsAs(board, entry.piece, placement.value)
              && placement.value.commands == entry.commands + [HardDrop]
  {
    LandingRests(board, entry.piece);
    LandingIsWritable(board, Landing(board, entry.piece));
    var projected := Project(board, entry.piece);
    if projected.None? {
      return None;
    }
    var cleared := ClearedBoard(projected.value);
    placement := Some(Placement(entry.commands + [HardDrop], cleared.board, cleared.lines));
    assert LandsAs(board, entry.piece, placement.value);
    assert placement.value.commands[..|entry.commands|] == entry.commands;
  }

  /** Breadth-first search over poses. None when a landing would stick out above the board; an empty list when the
      piece has no room to begin with; otherwise every reachable placement with the first of its command lists, in the
      order of these lists. */
  method EnumeratePlacements(board: Board, start: Pose) returns (found: Option<seq<Placement>>)
    ensures start.y >= 0 ==> found.Some?
    ensures found.Some? && Collides(board, start) ==> found.value == []
    ensures found.Some? && !Collides(board, start) ==> AllPlacements(board, start, found.value)
  {
    hide Walk, Shifted, SuccessorsFrom, Collides, LandsAs, IsPlanned, Explored, AllPlacements;
    var queue := [Entry(start, [])];
    var visited: set<Key> := {};
    var placements: seq<Placement> := [];
    ghost var walks: map<Pose, seq<GameCommand>> := map[];
    var index := 0;
    NothingExplored(board, start);
    while index < |queue|
      invariant Frontier(board, start, queue, index)
      invariant visited <= KeySpace(start.y)
      invariant forall piece :: piece in walks <==>
                  piece.kind == start.kind && piece.y == start.y && KeyOf(piece) in visited
      invariant Collides(board, start) ==> |queue| == 1 && placements == []
      invariant !Collides(board, start) ==> Explored(board, queue, index, walks, placements)
      invariant forall k :: 0 <= k < |placements| ==> IsPlanned(board, start, placements[k])
      decreases KeySpace(start.y) - visited, |queue| - index
    {
      var entry := queue[index];
      var piece := entry.piece;
      var key := KeyOf(piece);
      WalkKeeps(board, start, entry.commands);
      if key in visited || Collides(board, piece) {
        if !Collides(board, start) {
          ExploredSkips(board, start, queue, index, walks, placements);
        }
        index := index + 1;
        continue;
      }
      FreePieceHasKey(board, piece);
      visited := visited + {key};
      var placement := Plan(board, start, entry);
      if placement.None? {
        return None;
      }
      if !Collides(board, start) {
        ExploredGrows(board, start, queue, index, walks, placements, placement.value);
      }
      FrontierGrows(board, start, queue, index);
      walks := walks[piece := entry.commands];
      placements := placements + [placement.value];
      queue := Enqueue(board, entry, queue);
      index := index + 1;
    }
    if !Collides(board, start) {
      SearchIsComplete(board, start, queue, walks, placements);
    }
    found := Some(placements);
  }
}
