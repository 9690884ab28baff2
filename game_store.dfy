/**
 * The room state of the game store: joining a room rebuilds the board by
 * replaying the room's ordered move log over the puzzle; a player's own move
 * is written optimistically and reverted when its insert fails; broadcast
 * moves are validated against the solution and applied; broadcast chat
 * messages are appended; leaving a room resets the state.
 *
 * The backend (queries, inserts, the realtime channel) is not modelled: each
 * call appears as an input saying whether it succeeded and what it returned.
 */
module GameStore {
  import opened Sudoku

  datatype Option<T> = None | Some(value: T)

  /** The outcome of a backend query: an error, or the rows it returned. */
  datatype Reply<T> = Failure | Success(value: T)

  /** A room row; `puzzle` and `solution` are the stored "row-col" records. */
  datatype Room = Room(
    id: string,
    isPrivate: bool,
    password: Option<string>,
    puzzle: map<string, Cell>,
    solution: map<string, Cell>)

  /** A row of the move log. */
  datatype Move = Move(roomId: string, playerId: string, row: int, col: int, value: int, isValid: bool)

  /** A row of the chat log. */
  datatype Message = Message(roomId: string, playerId: string, text: string)

  predicate MovesInBounds(log: seq<Move>) {
    forall i :: 0 <= i < |log| ==> InBounds(log[i].row, log[i].col)
  }

  /** The password gate of `joinRoom`: a private room with a non-empty
      password turns away any other supplied password, or none. */
  predicate PasswordRejected(room: Room, password: Option<string>): (rejected: bool)
    ensures rejected ==> room.isPrivate && room.password.Some? && password != room.password
    ensures password == room.password ==> !rejected
    ensures room.isPrivate && room.password.Some? && room.password.value != "" && password.None? ==> rejected
  {
    room.isPrivate && room.password.Some? && room.password.value != "" &&
    Some(room.password.value) != password
  }

  // ---------------------------------------------------------------------
  // The board as a function of the move log
  // ---------------------------------------------------------------------

  /** One step of the rebuild: a valid move writes its value, any other
      move leaves the board alone. */
  function ApplyMove(board: Grid, m: Move): Grid
    requires IsGrid(board) && InBounds(m.row, m.col)
  {
    if m.isValid then SetCell(board, m.row, m.col, Num(m.value)) else board
  }

  /** The board `joinRoom` rebuilds: the moves folded over the puzzle in log order. */
  function Replay(puzzle: Grid, log: seq<Move>): (board: Grid)
    requires IsGrid(puzzle) && MovesInBounds(log)
    ensures IsGrid(board)
    decreases |log|
  {
    if log == [] then puzzle
    else ApplyMove(Replay(puzzle, log[..|log| - 1]), log[|log| - 1])
  }

  lemma ReplayAppend(puzzle: Grid, log: seq<Move>, m: Move)
    requires IsGrid(puzzle) && MovesInBounds(log) && InBounds(m.row, m.col)
    ensures MovesInBounds(log + [m])
    ensures Replay(puzzle, log + [m]) == ApplyMove(Replay(puzzle, log), m)
  {
    assert (log + [m])[..|log|] == log;
  }

  /** Last valid write wins: a cell shows the value of the last valid move
      written to it ... */
  lemma {:induction false} ReplayLastValidWins(puzzle: Grid, log: seq<Move>, i: int)
    requires IsGrid(puzzle) && MovesInBounds(log) && 0 <= i < |log| && log[i].isValid
    requires forall j :: i < j < |log| && log[j].isValid ==>
      (log[j].row, log[j].col) != (log[i].row, log[i].col)
    ensures Replay(puzzle, log)[log[i].row][log[i].col] == Num(log[i].value)
    decreases |log|
  {
    var last := |log| - 1;
    var prefix := log[..last];
    if i < last {
      ReplayLastValidWins(puzzle, prefix, i);
    }
  }

  /** ... and a cell that no valid move writes keeps its puzzle value. */
  lemma {:induction false} ReplayUnwritten(puzzle: Grid, log: seq<Move>, r: int, c: int)
    requires IsGrid(puzzle) && MovesInBounds(log) && InBounds(r, c)
    requires forall j :: 0 <= j < |log| && log[j].isValid ==> (log[j].row, log[j].col) != (r, c)
    ensures Replay(puzzle, log)[r][c] == puzzle[r][c]
    decreases |log|
  {
    if log != [] {
      ReplayUnwritten(puzzle, log[..|log| - 1], r, c);
    }
  }

  /** Invalid moves never alter the board. */
  lemma InvalidMoveIgnored(puzzle: Grid, log: seq<Move>, m: Move)
    requires IsGrid(puzzle) && MovesInBounds(log) && InBounds(m.row, m.col) && !m.isValid
    ensures MovesInBounds(log + [m])
    ensures Replay(puzzle, log + [m]) == Replay(puzzle, log)
  {
    ReplayAppend(puzzle, log, m);
  }

  /** Applying the same valid move twice leaves the board as after once. */
  lemma DuplicateMoveIdempotent(puzzle: Grid, log: seq<Move>, m: Move)
    requires IsGrid(puzzle) && MovesInBounds(log) && InBounds(m.row, m.col)
    ensures MovesInBounds(log + [m, m])
    ensures Replay(puzzle, log + [m, m]) == Replay(puzzle, log + [m])
  {
    ReplayAppend(puzzle, log, m);
    ReplayAppend(puzzle, log + [m], m);
    assert log + [m] + [m] == log + [m, m];
    var once := Replay(puzzle, log + [m]);
    if m.isValid {
      SetCellSame(once, m.row, m.col);
    }
  }

  /** Writing a cell's own value back leaves the grid unchanged. */
  lemma SetCellSame(s: Grid, row: int, col: int)
    requires IsGrid(s) && InBounds(row, col)
    ensures SetCell(s, row, col, s[row][col]) == s
  {
    assert s[row][col := s[row][col]] == s[row];
  }

  /** The board agrees with the solution on every filled cell. */
  ghost predicate AgreesWith(board: Grid, solution: Grid)
    requires IsGrid(board) && IsGrid(solution)
  {
    forall r, c :: InBounds(r, c) && board[r][c] != Empty ==> board[r][c] == solution[r][c]
  }

  /** Moves marked valid are exactly those the solution confirms. */
  predicate ValidatedAgainst(log: seq<Move>, solution: Grid)
    requires MovesInBounds(log) && IsGrid(solution)
  {
    forall i :: 0 <= i < |log| ==>
      log[i].isValid == ValidateMove(solution, log[i].row, log[i].col, log[i].value)
  }

  /** With validity computed by ValidateMove, the rebuilt board never shows a
      wrong value and never changes a given cell of a puzzle taken from the
      solution. */
  lemma {:induction false} ValidatedReplayAgrees(puzzle: Grid, solution: Grid, log: seq<Move>)
    requires IsGrid(puzzle) && IsGrid(solution) && MovesInBounds(log)
    requires AgreesWith(puzzle, solution) && ValidatedAgainst(log, solution)
    ensures AgreesWith(Replay(puzzle, log), solution)
    ensures Extends(Replay(puzzle, log), puzzle)
    decreases |log|
  {
    if log != [] {
      var prefix := log[..|log| - 1];
      assert ValidatedAgainst(prefix, solution) by {
        forall i | 0 <= i < |prefix|
          ensures prefix[i].isValid == ValidateMove(solution, prefix[i].row, prefix[i].col, prefix[i].value)
        {
          assert prefix[i] == log[i];
        }
      }
      ValidatedReplayAgrees(puzzle, solution, prefix);
    }
  }

  /** The replay loop of `joinRoom`: each valid move, in log order, writes
      its value into the board. */
  method RebuildBoard(puzzleRecord: map<string, Cell>, log: seq<Move>) returns (board: Grid)
    requires MovesInBounds(log)
    ensures board == Replay(FromJson(puzzleRecord), log)
  {
    var puzzleGrid := JsonToGrid(puzzleRecord);
    var puzzle := Snapshot(puzzleGrid);
    board := puzzle;
    for i := 0 to |log|
      invariant IsGrid(board) && board == Replay(puzzle, log[..i])
    {
      var move := log[i];
      ReplayAppend(puzzle, log[..i], move);
      assert log[..i + 1] == log[..i] + [move];
      if move.isValid {
        board := SetCell(board, move.row, move.col, Num(move.value));
      }
    }
    assert log[..|log|] == log;
  }

  /** The validation in the move handler: the stored solution is turned
      back into a grid and the move checked against it. */
  method CheckMove(solution: map<string, Cell>, row: int, col: int, value: int) returns (valid: bool)
    requires InBounds(row, col)
    ensures valid == ValidateMove(FromJson(solution), row, col, value)
  {
    var solutionGrid := JsonToGrid(solution);
    valid := ValidateMove(Snapshot(solutionGrid), row, col, value);
  }

  // ---------------------------------------------------------------------
  // Optimistic writes not yet confirmed by a broadcast
  // ---------------------------------------------------------------------

  predicate PendingInBounds(pending: map<(int, int), int>) {
    forall p :: p in pending ==> InBounds(p.0, p.1)
  }

  /** The board with the pending optimistic writes laid over it. */
  function Overlay(board: Grid, pending: map<(int, int), int>): (shown: Grid)
    requires IsGrid(board)
    ensures IsGrid(shown)
  {
    seq(9, r requires 0 <= r < 9 =>
      seq(9, c requires 0 <= c < 9 => if (r, c) in pending then Num(pending[(r, c)]) else board[r][c]))
  }

  lemma GridsEqual(a: Grid, b: Grid)
    requires IsGrid(a) && IsGrid(b)
    requires forall r, c :: InBounds(r, c) ==> a[r][c] == b[r][c]
    ensures a == b
  {
    forall r | 0 <= r < 9
      ensures a[r] == b[r]
    {
      assert forall c :: 0 <= c < 9 ==> a[r][c] == b[r][c];
    }
  }

  /** An optimistic write is a new pending entry over the same replay. */
  lemma OverlayWrite(board: Grid, pending: map<(int, int), int>, row: int, col: int, v: int)
    requires IsGrid(board) && InBounds(row, col)
    ensures Overlay(board, pending[(row, col) := v]) == SetCell(Overlay(board, pending), row, col, Num(v))
  {
    GridsEqual(Overlay(board, pending[(row, col) := v]), SetCell(Overlay(board, pending), row, col, Num(v)));
  }

  /** A valid broadcast at a cell settles any pending write there. */
  lemma OverlaySettle(board: Grid, pending: map<(int, int), int>, row: int, col: int, v: int)
    requires IsGrid(board) && InBounds(row, col)
    ensures Overlay(SetCell(board, row, col, Num(v)), pending - {(row, col)})
         == SetCell(Overlay(board, pending), row, col, Num(v))
  {
    GridsEqual(Overlay(SetCell(board, row, col, Num(v)), pending - {(row, col)}),
               SetCell(Overlay(board, pending), row, col, Num(v)));
  }

  /** A broadcast move applied to the shown board is the same as appending
      it to the log and settling the pending write at its cell when valid. */
  lemma BroadcastStep(puzzle: Grid, log: seq<Move>, pending: map<(int, int), int>, m: Move)
    requires IsGrid(puzzle) && MovesInBounds(log) && InBounds(m.row, m.col)
    ensures MovesInBounds(log + [m])
    ensures Overlay(Replay(puzzle, log + [m]), if m.isValid then pending - {(m.row, m.col)} else pending)
         == ApplyMove(Overlay(Replay(puzzle, log), pending), m)
  {
    ReplayAppend(puzzle, log, m);
    if m.isValid {
      OverlaySettle(Replay(puzzle, log), pending, m.row, m.col, m.value);
    }
  }

  lemma OverlayNothing(board: Grid)
    requires IsGrid(board)
    ensures Overlay(board, map[]) == board
  {
    GridsEqual(Overlay(board, map[]), board);
  }

  // ---------------------------------------------------------------------
  // The store
  // ---------------------------------------------------------------------

  class Store {
    var currentRoom: Option<Room>
    var currentBoard: Grid
    var moves: seq<Move>
    var messages: seq<Message>
    /** This client's optimistic writes that no valid broadcast has settled yet. */
    ghost var pending: map<(int, int), int>

    /** The puzzle of the current room (an empty grid when there is none). */
    ghost function Puzzle(): (p: Grid)
      reads this
      ensures IsGrid(p)
    {
      if currentRoom.Some? then FromJson(currentRoom.value.puzzle) else EmptyGrid()
    }

    /** The displayed board is the replay of the move log over the puzzle,
        with this client's unsettled optimistic writes on top. */
    ghost predicate Valid()
      reads this
    {
      && IsGrid(currentBoard)
      && MovesInBounds(moves)
      && PendingInBounds(pending)
      && currentBoard == Overlay(Replay(Puzzle(), moves), pending)
    }

    /** The initial store: no room, an all-empty board, no moves or messages. */
    constructor ()
      ensures Valid()
      ensures currentRoom == None && currentBoard == EmptyGrid() && moves == [] && messages == []
      ensures pending == map[]
    {
      currentRoom := None;
      currentBoard := EmptyGrid();
      moves := [];
      messages := [];
      pending := map[];
      new;
      OverlayNothing(EmptyGrid());
    }

    /**
     * `joinRoom`: fetch the room (roomReply), turn it away on a password
     * mismatch, fetch its moves and messages, rebuild the board from the
     * puzzle and the moves, and make it the current room.
     */
    method JoinRoom(roomId: string, password: Option<string>, roomReply: Reply<Room>,
                    movesReply: Reply<seq<Move>>, messagesReply: Reply<seq<Message>>)
      returns (joined: bool)
      requires Valid()
      requires roomReply.Success? ==> roomReply.value.id == roomId
      requires movesReply.Success? ==> MovesInBounds(movesReply.value)
      modifies this
      ensures Valid()
      ensures joined <==> roomReply.Success? && !PasswordRejected(roomReply.value, password) &&
                          movesReply.Success? && messagesReply.Success?
      ensures !joined ==> currentRoom == old(currentRoom) && currentBoard == old(currentBoard) &&
                          moves == old(moves) && messages == old(messages) && pending == old(pending)
      ensures joined ==> currentRoom == Some(roomReply.value) && currentRoom.value.id == roomId &&
                         moves == movesReply.value && messages == messagesReply.value &&
                         currentBoard == Replay(FromJson(roomReply.value.puzzle), moves) &&
                         pending == map[]
    {
      joined := roomReply.Success? && !PasswordRejected(roomReply.value, password) &&
                movesReply.Success? && messagesReply.Success?;
      if !joined {
        return;
      }
      var room := roomReply.value;
      var log := movesReply.value;
      var board := RebuildBoard(room.puzzle, log);
      currentRoom := Some(room);
      currentBoard := board;
      moves := log;
      messages := messagesReply.value;
      pending := map[];
      OverlayNothing(board);
    }

    /** `leaveRoom`: no room, an all-empty board, no moves or messages. */
    method LeaveRoom()
      requires Valid()
      modifies this
      ensures Valid()
      ensures currentRoom == None && currentBoard == EmptyGrid() && moves == [] && messages == []
      ensures pending == map[]
    {
      currentRoom := None;
      currentBoard := EmptyGrid();
      moves := [];
      messages := [];
      pending := map[];
      OverlayNothing(EmptyGrid());
    }

    /**
     * `makeMove`: with a current room, write the value into the cell at once,
     * then insert the move; `inserted` is the outcome of that insert. On
     * failure the board goes back to the snapshot taken on entry.
     */
    method MakeMove(row: int, col: int, value: int, inserted: bool) returns (ok: bool)
      requires Valid() && (currentRoom.Some? ==> InBounds(row, col))
      modifies this
      ensures Valid()
      ensures ok <==> old(currentRoom).Some? && inserted
      ensures ok ==> InBounds(row, col) && currentBoard == SetCell(old(currentBoard), row, col, Num(value))
      ensures !ok ==> currentBoard == old(currentBoard)
      ensures pending == if ok then old(pending)[(row, col) := value] else old(pending)
      ensures currentRoom == old(currentRoom) && moves == old(moves) && messages == old(messages)
    {
      var snapshot := currentBoard;
      if currentRoom.None? {
        return false;
      }
      var newBoard := SetCell(snapshot, row, col, Num(value));
      currentBoard := newBoard;
      ghost var settled := pending;
      pending := pending[(row, col) := value];
      OverlayWrite(Replay(Puzzle(), moves), settled, row, col, value);
      if !inserted {
        currentBoard := snapshot;
        pending := settled;
        return false;
      }
      return true;
    }

    /**
     * The move handler of the room channel subscribed for `roomId`: a move of
     * that room is validated against the current room's solution, written
     * to the board when valid, and appended to the log.
     */
    method OnMoveInserted(roomId: string, newMove: Move)
      requires Valid()
      requires newMove.roomId == roomId ==> currentRoom.Some? && InBounds(newMove.row, newMove.col)
      modifies this
      ensures Valid()
      ensures currentRoom == old(currentRoom) && messages == old(messages)
      ensures newMove.roomId != roomId ==>
        currentBoard == old(currentBoard) && moves == old(moves) && pending == old(pending)
      ensures newMove.roomId == roomId ==>
        var valid := ValidateMove(FromJson(currentRoom.value.solution), newMove.row, newMove.col, newMove.value);
        && moves == old(moves) + [newMove.(isValid := valid)]
        && currentBoard == (if valid then SetCell(old(currentBoard), newMove.row, newMove.col, Num(newMove.value))
                            else old(currentBoard))
        && pending == (if valid then old(pending) - {(newMove.row, newMove.col)} else old(pending))
      ensures old(currentBoard) == old(Replay(Puzzle(), moves)) ==> currentBoard == Replay(Puzzle(), moves)
      ensures old(pending) == map[] ==> pending == map[] && currentBoard == Replay(Puzzle(), moves)
    {
      if newMove.roomId != roomId {
        OverlayNothing(Replay(Puzzle(), moves));
        return;
      }
      var isValid := CheckMove(currentRoom.value.solution, newMove.row, newMove.col, newMove.value);
      AppendMove(newMove.(isValid := isValid));
    }

    /** The tail of the move handler: write a validated move to the board
        when it is valid, and append it to the log. */
    method AppendMove(move: Move)
      requires Valid() && InBounds(move.row, move.col)
      modifies this
      ensures Valid()
      ensures currentRoom == old(currentRoom) && messages == old(messages)
      ensures moves == old(moves) + [move] && currentBoard == ApplyMove(old(currentBoard), move)
      ensures pending == if move.isValid then old(pending) - {(move.row, move.col)} else old(pending)
      ensures old(currentBoard) == old(Replay(Puzzle(), moves)) ==> currentBoard == Replay(Puzzle(), moves)
      ensures old(pending) == map[] ==> pending == map[] && currentBoard == Replay(Puzzle(), moves)
    {
      ghost var after := Replay(Puzzle(), moves + [move]);
      BroadcastStep(Puzzle(), moves, pending, move);
      OverlayNothing(after);
      if move.isValid {
        currentBoard := SetCell(currentBoard, move.row, move.col, Num(move.value));
        pending := pending - {(move.row, move.col)};
      }
      moves := moves + [move];
    }

    /** The message handler of the room channel subscribed for `roomId`. */
    method OnMessageInserted(roomId: string, newMessage: Message)
      requires Valid()
      modifies this
      ensures Valid()
      ensures currentRoom == old(currentRoom) && currentBoard == old(currentBoard) && moves == old(moves)
      ensures pending == old(pending)
      ensures messages == if newMessage.roomId == roomId then old(messages) + [newMessage] else old(messages)
    {
      if newMessage.roomId == roomId {
        messages := messages + [newMessage];
      }
    }
  }
}
