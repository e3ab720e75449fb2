/** The Fox and Geese rule engine (fox_and_geese.py): input check, move
    validation, move execution with capture, turn switching and win
    detection. */
module Engine {
  import opened Wrappers
  import opened Board
  import opened PyText

  /** The statuses the engine reports (the Python enum, values 1..9 in this order). */
  datatype GameStatus =
    | GooseMoving
    | FoxMoving
    | KickOutGeese
    | FoxWin
    | GeeseWin
    | ValidInput
    | NotValidInput
    | ValidPosition
    | NotValidPosition

  /** Captures needed for the fox to win. */
  const WinningKicks := 10

  /** Geese on the board at the start. */
  const StartingGeese := 18

  // ---------------------------------------------------------------------
  // Input check

  const Keywords: set<string> := {"save", "exit", "undo"}

  /** A token that `int()` reads as a coordinate 0..8. */
  predicate IsCoordinateToken(t: string) {
    ParseInt(t).Some? && 0 <= ParseInt(t).value <= 8
  }

  /** `sanitize_valid_input`: a keyword, or exactly two whitespace-separated
      integers that both lie in 0..8. */
  function SanitizeValidInput(input: string): (r: GameStatus)
    requires IsAscii(input)
    ensures r == ValidInput || r == NotValidInput
    ensures input in Keywords ==> r == ValidInput
    ensures r == ValidInput && input !in Keywords ==>
              |Split(input)| == 2 && IsCoordinateToken(Split(input)[0]) && IsCoordinateToken(Split(input)[1])
    ensures (input !in Keywords && |Split(input)| == 2 &&
             IsCoordinateToken(Split(input)[0]) && IsCoordinateToken(Split(input)[1])) ==> r == ValidInput
  {
    if input in Keywords then ValidInput
    else
      var words := Split(input);
      if |words| != 2 then NotValidInput
      else
        match (ParseInt(words[0]), ParseInt(words[1]))
        case (Some(x), Some(y)) =>
          if 0 <= x <= 8 && 0 <= y <= 8 then ValidInput else NotValidInput
        case _ => NotValidInput
  }

  /** Any two coordinates 0..8, written in decimal and separated (and
      optionally surrounded) by whitespace, are accepted. */
  lemma SanitizeAcceptsCoordinates(x: nat, y: nat, lead: string, sep: string, trail: string)
    requires x <= 8 && y <= 8
    requires AllSpace(lead) && AllSpace(sep) && AllSpace(trail) && sep != []
    requires IsAscii(lead + NatToString(x) + sep + NatToString(y) + trail)
    ensures SanitizeValidInput(lead + NatToString(x) + sep + NatToString(y) + trail) == ValidInput
  {
    NatToStringDigits(x);
    NatToStringDigits(y);
    SplitTwoWords(lead, NatToString(x), sep, NatToString(y), trail);
    ParseNatToString(x);
    ParseNatToString(y);
  }

  /** Text starting with a digit is none of the keywords. */
  lemma DigitTextNotKeyword(s: string)
    requires |s| > 0 && IsDigit(s[0])
    ensures s !in Keywords
  {
  }

  /** Two integers of which one lies above 8 are refused. */
  lemma SanitizeRejectsOutOfRange(x: nat, y: nat, sep: string)
    requires x > 8 || y > 8
    requires AllSpace(sep) && sep != []
    requires IsAscii(NatToString(x) + sep + NatToString(y))
    ensures SanitizeValidInput(NatToString(x) + sep + NatToString(y)) == NotValidInput
  {
    var a, b := NatToString(x), NatToString(y);
    NatToStringDigits(x);
    NatToStringDigits(y);
    SplitTwoBareWords(a, sep, b);
    ParseNatToString(x);
    ParseNatToString(y);
    DigitTextNotKeyword(a + sep + b);
  }

  /** A single word that is not a keyword -- "3,4" for instance -- is refused. */
  lemma SanitizeRejectsOneWord(w: string)
    requires IsAscii(w) && NoSpace(w) && w !in Keywords
    ensures SanitizeValidInput(w) == NotValidInput
  {
  }

  // ---------------------------------------------------------------------
  // Move geometry

  /** The eight start/end pairs across the inner corners of the cross. */
  const InvalidMoves: seq<(Pos, Pos)> := [
    ((6, 3), (5, 2)), ((5, 2), (6, 3)),
    ((6, 5), (5, 6)), ((5, 6), (6, 5)),
    ((2, 3), (3, 2)), ((3, 2), (2, 3)),
    ((2, 5), (3, 6)), ((3, 6), (2, 5))
  ]

  function Abs(x: int): nat {
    if x < 0 then -x else x
  }

  /** Number of king steps between two cells. */
  function Chebyshev(s: Pos, e: Pos): nat {
    var dx, dy := Abs(e.0 - s.0), Abs(e.1 - s.1);
    if dx < dy then dy else dx
  }

  /** A displacement in which some coordinate changes by exactly 2. */
  predicate IsJump(s: Pos, e: Pos) {
    Abs(e.0 - s.0) == 2 || Abs(e.1 - s.1) == 2
  }

  /** The floor midpoint `((sx + ex) // 2, (sy + ey) // 2)`; Dafny's `/`
      agrees with Python's `//` because the divisor is positive. */
  function Mid(s: Pos, e: Pos): Pos {
    ((s.0 + e.0) / 2, (s.1 + e.1) / 2)
  }

  lemma MidInside(s: Pos, e: Pos)
    requires InBounds(s) && InBounds(e)
    ensures InBounds(Mid(s, e))
    ensures IsJump(s, e) ==> Mid(s, e) != s && Mid(s, e) != e
  {
  }

  /** The piece the player to move may pick up. */
  function Mover(player: char): char {
    if player == Fox then Fox else Goose
  }

  /** What `logic_valid_move` needs to run without an index error: the start
      cell is on the board, and so is the end cell whenever the start holds a
      goose (the goose-onto-goose check reads it before the bounds check). */
  predicate CanValidate(g: Grid, s: Pos, e: Pos) {
    IsGrid(g) && InBounds(s) && (At(g, s) == Goose ==> InBounds(e))
  }

  /** The moves the validator accepts, stated as one condition: not across a
      notch, onto an empty cell of the board, the start holds the mover's
      piece, and either one king step or -- for the fox -- a displacement with
      a coordinate changing by 2 whose floor midpoint holds a goose. */
  predicate LegalMove(g: Grid, player: char, s: Pos, e: Pos)
    requires IsGrid(g) && InBounds(s)
  {
    (s, e) !in InvalidMoves && InBounds(e) && s != e &&
    At(g, e) == Empty && At(g, s) == Mover(player) &&
    (Chebyshev(s, e) == 1 ||
     (player == Fox && IsJump(s, e) && (MidInside(s, e); At(g, Mid(s, e)) == Goose)))
  }

  /** The fox's two-cell move need not be straight or diagonal: a
      displacement of (2, 1) over a goose at its floor midpoint is accepted,
      although (2, 1) is not a doubled king direction. */
  lemma OffLineJumpAccepted(g: Grid)
    requires IsGrid(g)
    requires At(g, (4, 4)) == Fox && At(g, (5, 4)) == Goose && At(g, (6, 5)) == Empty
    ensures LogicValidMove(g, Fox, (4, 4), (6, 5)) == Some(ValidPosition)
    ensures Mid((4, 4), (6, 5)) == (5, 4)
    ensures forall d :: IsStep(d) ==> (2, 1) != (2 * d.0, 2 * d.1)
  {
  }

  /** The inputs on which `logic_valid_move` falls off its end and returns
      None: every rejection check passes, but either the start is not a piece
      or the end is not empty, or the fox moves further than one step without
      any coordinate changing by exactly 2. */
  predicate Unjudged(g: Grid, player: char, s: Pos, e: Pos)
    requires CanValidate(g, s, e)
  {
    (s, e) !in InvalidMoves && At(g, s) != Empty && s != e && InBounds(e) &&
    !(At(g, s) == Goose && At(g, e) == Goose) &&
    (!((At(g, s) == Fox || At(g, s) == Goose) && At(g, e) == Empty) ||
     (player == Fox && At(g, s) == Fox && Chebyshev(s, e) > 1 && !IsJump(s, e)))
  }

  /** `logic_valid_move`: a chain of early-return checks; None where the
      Python method returns nothing. */
  function LogicValidMove(g: Grid, player: char, start: Pos, end: Pos): (r: Option<GameStatus>)
    requires CanValidate(g, start, end)
    ensures (start, end) in InvalidMoves ==> r == Some(NotValidPosition)
    ensures !InBounds(end) ==> r == Some(NotValidPosition)
    ensures r == Some(ValidPosition) <==> LegalMove(g, player, start, end)
    ensures r == None <==> Unjudged(g, player, start, end)
    ensures r == None || r == Some(ValidPosition) || r == Some(NotValidPosition)
  {
    var (sx, sy) := start;
    var (ex, ey) := end;
    if (start, end) in InvalidMoves then Some(NotValidPosition)
    else if g[sx][sy] == Empty then Some(NotValidPosition)
    else if g[sx][sy] == Goose && g[ex][ey] == Goose then Some(NotValidPosition)
    else if start == end then Some(NotValidPosition)
    else if !(0 <= ex < |g| && 0 <= ey < |g[0]|) then Some(NotValidPosition)
    else if (g[sx][sy] == Fox || g[sx][sy] == Goose) && g[ex][ey] == Empty then
      if player == Fox then
        if g[sx][sy] != Fox then Some(NotValidPosition)
        else if Abs(ex - sx) <= 1 && Abs(ey - sy) <= 1 then Some(ValidPosition)
        else if Abs(ex - sx) > 1 || Abs(ey - sy) > 1 then
          if Abs(ex - sx) == 2 || Abs(ey - sy) == 2 then
            var (midX, midY) := ((sx + ex) / 2, (sy + ey) / 2);
            if g[midX][midY] == Goose && g[ex][ey] == Empty then Some(ValidPosition)
            else Some(NotValidPosition)
          else None
        else Some(NotValidPosition)
      else
        if g[sx][sy] != Goose then Some(NotValidPosition)
        else if Abs(ex - sx) <= 1 && Abs(ey - sy) <= 1 then Some(ValidPosition)
        else if Abs(ex - sx) > 1 || Abs(ey - sy) > 1 then Some(NotValidPosition)
        else None
    else None
  }

  // ---------------------------------------------------------------------
  // Move execution on a board value

  /** A jump whose floor midpoint holds a goose: that goose is captured. */
  predicate Captures(g: Grid, s: Pos, e: Pos)
    requires IsGrid(g) && InBounds(s) && InBounds(e)
  {
    IsJump(s, e) && (MidInside(s, e); At(g, Mid(s, e)) == Goose)
  }

  /** The writes `move_piece` makes: the end cell takes the start piece, the
      start cell empties, and a goose at the midpoint of a jump is removed. */
  function ApplyMove(g: Grid, s: Pos, e: Pos): (r: Grid)
    requires IsGrid(g) && InBounds(s) && InBounds(e)
    ensures IsGrid(r)
    ensures forall q :: InBounds(q) ==>
              At(r, q) == (if q == s then Empty
                           else if q == e then At(g, s)
                           else if Captures(g, s, e) && q == Mid(s, e) then Empty
                           else At(g, q))
  {
    MidInside(s, e);
    var moved := Put(Put(g, e, At(g, s)), s, Empty);
    if IsJump(s, e) && At(moved, Mid(s, e)) == Goose then Put(moved, Mid(s, e), Empty) else moved
  }

  /** On an accepted move a goose is captured exactly when some coordinate
      changes by 2, and only the fox ever captures. */
  lemma AcceptedCapture(g: Grid, player: char, s: Pos, e: Pos)
    requires CanValidate(g, s, e)
    requires LogicValidMove(g, player, s, e) == Some(ValidPosition)
    ensures Captures(g, s, e) <==> IsJump(s, e)
    ensures IsJump(s, e) ==> player == Fox && At(g, s) == Fox
  {
  }

  /** An accepted move keeps exactly the pieces it should: the fox count is
      unchanged, and the goose count drops by one on a capture and otherwise
      stays put. */
  lemma MoveCounts(g: Grid, player: char, s: Pos, e: Pos)
    requires CanValidate(g, s, e)
    requires LogicValidMove(g, player, s, e) == Some(ValidPosition)
    ensures Count(ApplyMove(g, s, e), Fox) == Count(g, Fox)
    ensures Count(ApplyMove(g, s, e), Goose) == Count(g, Goose) - (if IsJump(s, e) then 1 else 0)
  {
    MidInside(s, e);
    var piece := At(g, s);
    var g1 := Put(g, e, piece);
    var g2 := Put(g1, s, Empty);
    CountPut(g, e, piece, Fox);
    CountPut(g, e, piece, Goose);
    CountPut(g1, s, Empty, Fox);
    CountPut(g1, s, Empty, Goose);
    if IsJump(s, e) {
      CountPut(g2, Mid(s, e), Empty, Fox);
      CountPut(g2, Mid(s, e), Empty, Goose);
    }
  }

  /** An accepted move keeps the board well formed. */
  lemma MoveKeepsWellFormed(g: Grid, player: char, s: Pos, e: Pos)
    requires WellFormed(g) && CanValidate(g, s, e)
    requires LogicValidMove(g, player, s, e) == Some(ValidPosition)
    ensures WellFormed(ApplyMove(g, s, e))
  {
    MoveCounts(g, player, s, e);
  }

  // ---------------------------------------------------------------------
  // Fox mobility, as check_win inspects it

  /** The `directions` and `jump_directions` lists of `check_win`. */
  const Directions: seq<Pos> := [(-1, 0), (1, 0), (0, -1), (0, 1), (-1, -1), (1, 1), (-1, 1), (1, -1)]
  const JumpDirections: seq<Pos> := [(-2, 0), (2, 0), (0, -2), (0, 2), (-2, -2), (2, 2), (-2, 2), (2, -2)]

  function Add(p: Pos, d: Pos): Pos {
    (p.0 + d.0, p.1 + d.1)
  }

  /** One of the eight king directions. */
  predicate IsStep(d: Pos) {
    -1 <= d.0 <= 1 && -1 <= d.1 <= 1 && d != (0, 0)
  }

  /** A doubled king direction, as listed in `jump_directions`. */
  predicate IsJumpVector(j: Pos) {
    (j.0 == -2 || j.0 == 0 || j.0 == 2) && (j.1 == -2 || j.1 == 0 || j.1 == 2) && j != (0, 0)
  }

  /** The neighbour in direction `d` is on the board and empty. */
  predicate StepOpen(g: Grid, p: Pos, d: Pos)
    requires IsGrid(g)
  {
    InBounds(Add(p, d)) && At(g, Add(p, d)) == Empty
  }

  /** The neighbour in direction `d` holds a goose and the cell beyond it is
      on the board and empty. */
  predicate JumpOpen(g: Grid, p: Pos, d: Pos)
    requires IsGrid(g)
  {
    InBounds(Add(p, d)) && InBounds(Add(Add(p, d), d)) &&
    At(g, Add(p, d)) == Goose && At(g, Add(Add(p, d), d)) == Empty
  }

  /** The fox at `p` has somewhere to go: an empty neighbour, or a goose
      next to it with an empty cell behind, in a straight or diagonal line. */
  ghost predicate FoxCanMove(g: Grid, p: Pos)
    requires IsGrid(g)
  {
    exists d :: IsStep(d) && (StepOpen(g, p, d) || JumpOpen(g, p, d))
  }

  /** The jump test of `check_win` for a direction `j` of length two: the
      landing cell is on the board and empty, and the midpoint (Python's
      `//` halving `j`) holds a goose. */
  predicate JumpTargetOpen(g: Grid, p: Pos, j: Pos)
    requires IsGrid(g)
  {
    var mid := (p.0 + j.0 / 2, p.1 + j.1 / 2);
    InBounds(Add(p, j)) && InBounds(mid) && At(g, mid) == Goose && At(g, Add(p, j)) == Empty
  }

  lemma DirectionIsStep(d: Pos)
    requires d in Directions
    ensures IsStep(d)
  {
  }

  lemma StepIsDirection(d: Pos)
    requires IsStep(d)
    ensures d in Directions
  {
  }

  lemma JumpDirectionIsDoubledStep(j: Pos)
    requires j in JumpDirections
    ensures IsStep((j.0 / 2, j.1 / 2)) && j == (2 * (j.0 / 2), 2 * (j.1 / 2))
  {
  }

  lemma DoubledStepIsJumpDirection(d: Pos)
    requires IsStep(d)
    ensures (2 * d.0, 2 * d.1) in JumpDirections
  {
  }

  lemma JumpAsCandidate(g: Grid, p: Pos, d: Pos)
    requires IsGrid(g) && IsStep(d) && JumpOpen(g, p, d)
    ensures (2 * d.0, 2 * d.1) in JumpDirections && JumpTargetOpen(g, p, (2 * d.0, 2 * d.1))
  {
  }

  lemma CandidateAsJump(g: Grid, p: Pos, j: Pos)
    requires IsGrid(g) && j in JumpDirections && JumpTargetOpen(g, p, j)
    ensures IsStep((j.0 / 2, j.1 / 2)) && JumpOpen(g, p, (j.0 / 2, j.1 / 2))
  {
  }

  /** The sixteen candidates that `check_win` tries cover exactly the moves
      of `FoxCanMove`. */
  lemma CandidatesMatchMobility(g: Grid, p: Pos)
    requires IsGrid(g)
    ensures FoxCanMove(g, p) <==>
              (exists d :: d in Directions && StepOpen(g, p, d)) ||
              (exists j :: j in JumpDirections && JumpTargetOpen(g, p, j))
  {
    if FoxCanMove(g, p) {
      var d :| IsStep(d) && (StepOpen(g, p, d) || JumpOpen(g, p, d));
      if StepOpen(g, p, d) {
        StepIsDirection(d);
      } else {
        JumpAsCandidate(g, p, d);
      }
    }
    if exists d :: d in Directions && StepOpen(g, p, d) {
      var d :| d in Directions && StepOpen(g, p, d);
      DirectionIsStep(d);
    }
    if exists j :: j in JumpDirections && JumpTargetOpen(g, p, j) {
      var j :| j in JumpDirections && JumpTargetOpen(g, p, j);
      CandidateAsJump(g, p, j);
    }
  }

  /** The landing cells `check_win` collects for the king steps `ds`, in
      order; the fox's own cell is never among them. */
  function StepTargets(g: Grid, p: Pos, ds: seq<Pos>): seq<Pos>
    requires IsGrid(g)
  {
    if ds == [] then []
    else (if StepOpen(g, p, ds[0]) then [Add(p, ds[0])] else []) + StepTargets(g, p, ds[1..])
  }

  /** The landing cells `check_win` collects for the jumps `js`, in order;
      the fox's own cell is never among them. */
  function JumpTargets(g: Grid, p: Pos, js: seq<Pos>): seq<Pos>
    requires IsGrid(g)
  {
    if js == [] then []
    else (if JumpTargetOpen(g, p, js[0]) then [Add(p, js[0])] else []) + JumpTargets(g, p, js[1..])
  }

  lemma {:induction false} StepTargetsNonEmpty(g: Grid, p: Pos, ds: seq<Pos>)
    requires IsGrid(g)
    ensures StepTargets(g, p, ds) != [] <==> exists d :: d in ds && StepOpen(g, p, d)
  {
    if ds != [] {
      StepTargetsNonEmpty(g, p, ds[1..]);
      assert forall d :: d in ds <==> d == ds[0] || d in ds[1..];
    }
  }

  lemma {:induction false} JumpTargetsNonEmpty(g: Grid, p: Pos, js: seq<Pos>)
    requires IsGrid(g)
    ensures JumpTargets(g, p, js) != [] <==> exists j :: j in js && JumpTargetOpen(g, p, j)
  {
    if js != [] {
      JumpTargetsNonEmpty(g, p, js[1..]);
      assert forall j :: j in js <==> j == js[0] || j in js[1..];
    }
  }

  /** No step lands on the cell it starts from. */
  lemma {:induction false} StepTargetsAvoid(g: Grid, p: Pos, ds: seq<Pos>)
    requires IsGrid(g) && forall d :: d in ds ==> d != (0, 0)
    ensures p !in StepTargets(g, p, ds)
  {
    if ds != [] {
      assert forall x :: x in ds[1..] ==> x in ds;
      StepTargetsAvoid(g, p, ds[1..]);
      assert ds[0] in ds;
    }
  }

  /** No jump lands on the cell it starts from. */
  lemma {:induction false} JumpTargetsAvoid(g: Grid, p: Pos, js: seq<Pos>)
    requires IsGrid(g) && forall j :: j in js ==> j != (0, 0)
    ensures p !in JumpTargets(g, p, js)
  {
    if js != [] {
      assert forall x :: x in js[1..] ==> x in js;
      JumpTargetsAvoid(g, p, js[1..]);
      assert js[0] in js;
    }
  }

  /** `potential_moves` as `check_win` builds it: the open steps, then the
      open jumps. */
  function Candidates(g: Grid, p: Pos): seq<Pos>
    requires IsGrid(g)
  {
    StepTargets(g, p, Directions) + JumpTargets(g, p, JumpDirections)
  }

  /** The fox has a candidate move exactly when it can move. */
  lemma CandidatesMeanMobility(g: Grid, p: Pos)
    requires IsGrid(g)
    ensures Candidates(g, p) != [] <==> FoxCanMove(g, p)
  {
    StepTargetsNonEmpty(g, p, Directions);
    JumpTargetsNonEmpty(g, p, JumpDirections);
    CandidatesMatchMobility(g, p);
  }

  /** The fox's own cell is never a candidate, so the one-candidate
      tie-break of `check_win` never applies. */
  lemma CandidatesAvoidFox(g: Grid, p: Pos)
    requires IsGrid(g)
    ensures p !in Candidates(g, p)
  {
    StepTargetsAvoid(g, p, Directions);
    JumpTargetsAvoid(g, p, JumpDirections);
  }

  /** A one-step candidate of `check_win` and the validator agree, except
      across a notch: the fox may step in direction `d` exactly when that
      neighbour is open and the pair is not one of the eight notch pairs. */
  lemma StepCandidateIsLegal(g: Grid, p: Pos, d: Pos)
    requires IsGrid(g) && InBounds(p) && At(g, p) == Fox && IsStep(d)
    ensures LegalMove(g, Fox, p, Add(p, d)) <==> StepOpen(g, p, d) && (p, Add(p, d)) !in InvalidMoves
  {
  }

  /** A jump candidate of `check_win` and the validator agree, except
      across a notch: the fox may jump over the neighbour in direction `d`
      exactly when `JumpOpen` holds and the pair is not a notch pair. */
  lemma JumpCandidateIsLegal(g: Grid, p: Pos, d: Pos)
    requires IsGrid(g) && InBounds(p) && At(g, p) == Fox && IsStep(d)
    ensures LegalMove(g, Fox, p, Add(Add(p, d), d)) <==>
              JumpOpen(g, p, d) && (p, Add(Add(p, d), d)) !in InvalidMoves
  {
    var e := Add(Add(p, d), d);
    assert IsJump(p, e) && Chebyshev(p, e) == 2;
    assert Mid(p, e) == Add(p, d);
  }

  /** `check_win` counts a notch step as a way out: with the fox at (6,3)
      and (5,2) empty, the fox can move as far as `check_win` is concerned,
      although the validator refuses that step. */
  lemma NotchStepCounted(g: Grid)
    requires IsGrid(g) && At(g, (6, 3)) == Fox && At(g, (5, 2)) == Empty
    ensures StepOpen(g, (6, 3), (-1, -1)) && FoxCanMove(g, (6, 3))
    ensures LogicValidMove(g, Fox, (6, 3), (5, 2)) == Some(NotValidPosition)
  {
    assert IsStep((-1, -1)) && StepOpen(g, (6, 3), (-1, -1));
  }

  /** One turn of the first loop of `check_win`: with `open` the test it
      evaluates for the next step of `ds`, appending that step's landing cell
      when `open` holds keeps the collected cells on course for `total`. */
  lemma StepTurn(g: Grid, p: Pos, ds: seq<Pos>, done: seq<Pos>, total: seq<Pos>, open: bool)
    requires IsGrid(g) && ds != []
    requires done + StepTargets(g, p, ds) == total
    requires open <==> StepOpen(g, p, ds[0])
    ensures open ==> (done + [Add(p, ds[0])]) + StepTargets(g, p, ds[1..]) == total
    ensures !open ==> done + StepTargets(g, p, ds[1..]) == total
  {
    var rest := StepTargets(g, p, ds[1..]);
    if open {
      assert StepTargets(g, p, ds) == [Add(p, ds[0])] + rest;
      assert done + ([Add(p, ds[0])] + rest) == (done + [Add(p, ds[0])]) + rest;
    } else {
      assert StepTargets(g, p, ds) == [] + rest;
      assert [] + rest == rest;
    }
  }

  /** One turn of the second loop of `check_win`, as `StepTurn`. */
  lemma JumpTurn(g: Grid, p: Pos, js: seq<Pos>, done: seq<Pos>, total: seq<Pos>, open: bool)
    requires IsGrid(g) && js != []
    requires done + JumpTargets(g, p, js) == total
    requires open <==> JumpTargetOpen(g, p, js[0])
    ensures open ==> (done + [Add(p, js[0])]) + JumpTargets(g, p, js[1..]) == total
    ensures !open ==> done + JumpTargets(g, p, js[1..]) == total
  {
    var rest := JumpTargets(g, p, js[1..]);
    if open {
      assert JumpTargets(g, p, js) == [Add(p, js[0])] + rest;
      assert done + ([Add(p, js[0])] + rest) == (done + [Add(p, js[0])]) + rest;
    } else {
      assert JumpTargets(g, p, js) == [] + rest;
      assert [] + rest == rest;
    }
  }

  /** The jump test as `check_win` writes it: when the landing cell is on
      the board, so is the midpoint, and the test agrees with
      `JumpTargetOpen`. */
  lemma JumpCandidateTest(g: Grid, p: Pos, j: Pos)
    requires IsGrid(g) && InBounds(p) && IsJumpVector(j)
    ensures var mid := (p.0 + j.0 / 2, p.1 + j.1 / 2);
            InBounds(Add(p, j)) ==>
              (InBounds(mid) &&
               (JumpTargetOpen(g, p, j) <==> At(g, mid) == Goose && At(g, Add(p, j)) == Empty))
    ensures !InBounds(Add(p, j)) ==> !JumpTargetOpen(g, p, j)
  {
  }

  // ---------------------------------------------------------------------
  // The game object

  /** The game invariant on values: a well-formed board, a player mark,
      every goose either still on the board or counted as kicked, the
      recorded fox position (once there is one) on the board, and a recorded
      position whenever the geese are to move (the fox has moved first). */
  ghost predicate Consistent(g: Grid, player: char, kicked: int, last: Option<Pos>) {
    WellFormed(g) &&
    (player == Fox || player == Goose) &&
    kicked >= 0 &&
    Count(g, Goose) + kicked == StartingGeese &&
    (last.Some? ==> InBounds(last.value)) &&
    (player == Goose ==> last.Some?)
  }

  /** The game starts consistent: 18 geese on the board, none kicked. */
  lemma InitialValid(g: Grid)
    requires g == InitialGrid()
    ensures Consistent(g, Fox, 0, None)
  {
    InitialWellFormed();
    InitialCounts();
  }

  /** An accepted move keeps the game consistent once the kick counter
      advances on a capture. */
  lemma MoveKeepsConsistent(g: Grid, player: char, kicked: int, last: Option<Pos>, s: Pos, e: Pos)
    requires Consistent(g, player, kicked, last) && CanValidate(g, s, e)
    requires LogicValidMove(g, player, s, e) == Some(ValidPosition)
    ensures Consistent(ApplyMove(g, s, e), player, kicked + (if IsJump(s, e) then 1 else 0), last)
  {
    MoveCounts(g, player, s, e);
    MoveKeepsWellFormed(g, player, s, e);
  }

  /** What `move_piece` relies on after an accepted move: a goose is
      removed exactly on a jump, and counting it keeps the game consistent. */
  lemma AcceptedMove(g: Grid, player: char, kicked: int, last: Option<Pos>, s: Pos, e: Pos)
    requires Consistent(g, player, kicked, last) && CanValidate(g, s, e)
    requires LogicValidMove(g, player, s, e) == Some(ValidPosition)
    ensures Captures(g, s, e) <==> IsJump(s, e)
    ensures Consistent(ApplyMove(g, s, e), player, kicked + (if Captures(g, s, e) then 1 else 0), last)
  {
    AcceptedCapture(g, player, s, e);
    MoveKeepsConsistent(g, player, kicked, last, s, e);
  }

  class FoxAndGeese {
    const gameBoard: GameBoard
    var currentPlayer: char
    var geeseKicked: int
    var lastMoveEndPosition: Option<Pos>

    /** The object invariant: a 9x9 board, consistent with the fields. */
    ghost predicate Valid()
      reads this, gameBoard.board
    {
      gameBoard.board.Length0 == Size && gameBoard.board.Length1 == Size &&
      Consistent(gameBoard.Cells(), currentPlayer, geeseKicked, lastMoveEndPosition)
    }

    /** The recorded position, once there is one, holds the fox. */
    ghost predicate FoxTracked()
      reads this, gameBoard.board
      requires Valid()
    {
      lastMoveEndPosition.Some? ==> At(gameBoard.Cells(), lastMoveEndPosition.value) == Fox
    }

    /** `logic_valid_move(start, end) == VALID_POSITION` in the current state. */
    predicate Accepts(start: Pos, end: Pos)
      reads this, gameBoard.board
      requires Valid() && CanValidate(gameBoard.Cells(), start, end)
    {
      LogicValidMove(gameBoard.Cells(), currentPlayer, start, end) == Some(ValidPosition)
    }

    constructor ()
      ensures Valid()
      ensures fresh(gameBoard) && fresh(gameBoard.board)
      ensures gameBoard.Cells() == InitialGrid()
      ensures currentPlayer == Fox && geeseKicked == 0 && lastMoveEndPosition == None
      ensures FoxTracked()
    {
      gameBoard := new GameBoard();
      currentPlayer := Fox;
      geeseKicked := 0;
      lastMoveEndPosition := None;
      new;
      ghost var g := gameBoard.Cells();
      assert g == InitialGrid();
      InitialValid(g);
    }

    /** `move_piece`: re-validates, then moves the piece in place and
        removes a jumped goose, counting it. */
    method MovePiece(start: Pos, end: Pos)
      requires Valid() && CanValidate(gameBoard.Cells(), start, end)
      modifies this, gameBoard.board
      ensures Valid()
      ensures currentPlayer == old(currentPlayer) && lastMoveEndPosition == old(lastMoveEndPosition)
      ensures old(Accepts(start, end)) ==>
                gameBoard.Cells() == ApplyMove(old(gameBoard.Cells()), start, end) &&
                geeseKicked == old(geeseKicked) + (if IsJump(start, end) then 1 else 0)
      ensures !old(Accepts(start, end)) ==>
                gameBoard.Cells() == old(gameBoard.Cells()) && geeseKicked == old(geeseKicked)
    {
      if LogicValidMove(gameBoard.Cells(), currentPlayer, start, end) == Some(ValidPosition) {
        ghost var before := gameBoard.Cells();
        var captured := WriteMove(start, end);
        AcceptedMove(before, currentPlayer, geeseKicked, lastMoveEndPosition, start, end);
        if captured {
          geeseKicked := geeseKicked + 1;
        }
      }
    }

    /** The board writes of `move_piece`: the end cell takes the start
        piece, the start cell empties, and on a jump a goose at the
        midpoint is removed; `captured` says whether that happened. */
    method WriteMove(start: Pos, end: Pos) returns (captured: bool)
      requires gameBoard.board.Length0 == Size && gameBoard.board.Length1 == Size
      requires InBounds(start) && InBounds(end)
      modifies gameBoard.board
      ensures gameBoard.Cells() == ApplyMove(old(gameBoard.Cells()), start, end)
      ensures captured == Captures(old(gameBoard.Cells()), start, end)
    {
      var (sx, sy) := start;
      var (ex, ey) := end;
      MidInside(start, end);
      gameBoard.Set(end, gameBoard.board[sx, sy]);
      gameBoard.Set(start, Empty);
      captured := false;
      if Abs(sx - ex) == 2 || Abs(sy - ey) == 2 {
        var (midX, midY) := ((sx + ex) / 2, (sy + ey) / 2);
        if gameBoard.board[midX, midY] == Goose {
          gameBoard.Set((midX, midY), Empty);
          captured := true;
        }
      }
    }

    /** `fox_move`: on an accepted move, moves, records the end cell as the
        fox's position and hands the turn to the geese. */
    method FoxMove(sx: int, sy: int, ex: int, ey: int) returns (status: Option<GameStatus>)
      requires Valid() && CanValidate(gameBoard.Cells(), (sx, sy), (ex, ey))
      modifies this, gameBoard.board
      ensures Valid()
      ensures old(Accepts((sx, sy), (ex, ey))) ==>
                status == Some(FoxMoving) &&
                gameBoard.Cells() == ApplyMove(old(gameBoard.Cells()), (sx, sy), (ex, ey)) &&
                geeseKicked == old(geeseKicked) + (if IsJump((sx, sy), (ex, ey)) then 1 else 0) &&
                currentPlayer == Goose && lastMoveEndPosition == Some((ex, ey)) &&
                At(gameBoard.Cells(), (ex, ey)) == Mover(old(currentPlayer))
      ensures !old(Accepts((sx, sy), (ex, ey))) ==>
                status == None && gameBoard.Cells() == old(gameBoard.Cells()) &&
                geeseKicked == old(geeseKicked) && currentPlayer == old(currentPlayer) &&
                lastMoveEndPosition == old(lastMoveEndPosition)
    {
      status := None;
      if LogicValidMove(gameBoard.Cells(), currentPlayer, (sx, sy), (ex, ey)) == Some(ValidPosition) {
        MovePiece((sx, sy), (ex, ey));
        lastMoveEndPosition := Some((ex, ey));
        currentPlayer := Goose;
        status := Some(FoxMoving);
      }
    }

    /** `geese_move`: on an accepted move, moves and hands the turn to the
        fox. The `check_win` call that follows reads the recorded fox
        position unless ten geese are already kicked, so an accepted move
        needs one. */
    method GeeseMove(sx: int, sy: int, ex: int, ey: int) returns (status: Option<GameStatus>)
      requires Valid() && CanValidate(gameBoard.Cells(), (sx, sy), (ex, ey))
      requires Accepts((sx, sy), (ex, ey)) ==> lastMoveEndPosition.Some? || geeseKicked >= WinningKicks
      modifies this, gameBoard.board
      ensures Valid()
      ensures lastMoveEndPosition == old(lastMoveEndPosition)
      ensures old(Accepts((sx, sy), (ex, ey))) ==>
                status == Some(GooseMoving) &&
                gameBoard.Cells() == ApplyMove(old(gameBoard.Cells()), (sx, sy), (ex, ey)) &&
                geeseKicked == old(geeseKicked) + (if IsJump((sx, sy), (ex, ey)) then 1 else 0) &&
                currentPlayer == Fox
      ensures !old(Accepts((sx, sy), (ex, ey))) ==>
                status == None && gameBoard.Cells() == old(gameBoard.Cells()) &&
                geeseKicked == old(geeseKicked) && currentPlayer == old(currentPlayer)
    {
      status := None;
      if LogicValidMove(gameBoard.Cells(), currentPlayer, (sx, sy), (ex, ey)) == Some(ValidPosition) {
        MovePiece((sx, sy), (ex, ey));
        currentPlayer := Fox;
        status := Some(GooseMoving);
      }
    }

    /** `current_players_move`: dispatches on whose turn it is. Turns
        alternate on every accepted move and stay put otherwise, and the
        recorded position keeps pointing at the fox. */
    method CurrentPlayersMove(sx: int, sy: int, ex: int, ey: int) returns (status: Option<GameStatus>)
      requires Valid() && FoxTracked() && CanValidate(gameBoard.Cells(), (sx, sy), (ex, ey))
      modifies this, gameBoard.board
      ensures Valid() && FoxTracked()
      ensures old(Accepts((sx, sy), (ex, ey))) ==>
                status == Some(if old(currentPlayer) == Fox then FoxMoving else GooseMoving) &&
                currentPlayer == (if old(currentPlayer) == Fox then Goose else Fox) &&
                gameBoard.Cells() == ApplyMove(old(gameBoard.Cells()), (sx, sy), (ex, ey)) &&
                geeseKicked == old(geeseKicked) + (if IsJump((sx, sy), (ex, ey)) then 1 else 0) &&
                lastMoveEndPosition == (if old(currentPlayer) == Fox then Some((ex, ey)) else old(lastMoveEndPosition))
      ensures !old(Accepts((sx, sy), (ex, ey))) ==>
                status == None && gameBoard.Cells() == old(gameBoard.Cells()) &&
                geeseKicked == old(geeseKicked) && currentPlayer == old(currentPlayer) &&
                lastMoveEndPosition == old(lastMoveEndPosition)
    {
      ghost var before := gameBoard.Cells();
      ghost var accepted := Accepts((sx, sy), (ex, ey));
      if currentPlayer == Fox {
        status := FoxMove(sx, sy, ex, ey);
      } else {
        status := GeeseMove(sx, sy, ex, ey);
        if accepted && lastMoveEndPosition.Some? {
          MidInside((sx, sy), (ex, ey));
        }
      }
    }

    /** The first loop of `check_win`: the empty neighbours of the fox, in
        the order of `directions`. */
    method StepCandidates(foxPos: Pos) returns (moves: seq<Pos>)
      requires gameBoard.board.Length0 == Size && gameBoard.board.Length1 == Size
      ensures moves == StepTargets(gameBoard.Cells(), foxPos, Directions)
    {
      ghost var g := gameBoard.Cells();
      moves := [];
      var directions := Directions;
      while directions != []
        invariant moves + StepTargets(g, foxPos, directions) == StepTargets(g, foxPos, Directions)
      {
        var open := StepTest(foxPos, directions[0]);
        StepTurn(g, foxPos, directions, moves, StepTargets(g, foxPos, Directions), open);
        if open {
          moves := moves + [Add(foxPos, directions[0])];
        }
        directions := directions[1..];
      }
      assert moves + [] == moves;
    }

    /** The test of the first loop for direction `d`: the neighbour is on
        the board and empty. */
    method StepTest(foxPos: Pos, d: Pos) returns (open: bool)
      requires gameBoard.board.Length0 == Size && gameBoard.board.Length1 == Size
      ensures open == StepOpen(gameBoard.Cells(), foxPos, d)
    {
      var (dx, dy) := d;
      var (x1, y1) := (foxPos.0 + dx, foxPos.1 + dy);
      open := 0 <= x1 < 9 && 0 <= y1 < 9 && gameBoard.board[x1, y1] == Empty;
    }

    /** The second loop of `check_win`: the cells the fox can jump to over a
        goose, in the order of `jump_directions`. */
    method JumpCandidates(foxPos: Pos) returns (moves: seq<Pos>)
      requires gameBoard.board.Length0 == Size && gameBoard.board.Length1 == Size
      requires InBounds(foxPos)
      ensures moves == JumpTargets(gameBoard.Cells(), foxPos, JumpDirections)
    {
      ghost var g := gameBoard.Cells();
      moves := [];
      var jumpDirections := JumpDirections;
      while jumpDirections != []
        invariant forall j :: j in jumpDirections ==> IsJumpVector(j)
        invariant moves + JumpTargets(g, foxPos, jumpDirections) == JumpTargets(g, foxPos, JumpDirections)
      {
        var open := JumpTest(foxPos, jumpDirections[0]);
        JumpTurn(g, foxPos, jumpDirections, moves, JumpTargets(g, foxPos, JumpDirections), open);
        if open {
          moves := moves + [Add(foxPos, jumpDirections[0])];
        }
        jumpDirections := jumpDirections[1..];
      }
      assert moves + [] == moves;
    }

    /** The test of the second loop for jump direction `j`: the landing cell
        is on the board and empty, and the cell half-way holds a goose. */
    method JumpTest(foxPos: Pos, j: Pos) returns (open: bool)
      requires gameBoard.board.Length0 == Size && gameBoard.board.Length1 == Size
      requires InBounds(foxPos) && IsJumpVector(j)
      ensures open == JumpTargetOpen(gameBoard.Cells(), foxPos, j)
    {
      JumpCandidateTest(gameBoard.Cells(), foxPos, j);
      var (dx, dy) := j;
      var (midX, midY) := (foxPos.0 + dx / 2, foxPos.1 + dy / 2);
      var (x2, y2) := (foxPos.0 + dx, foxPos.1 + dy);
      open := 0 <= x2 < 9 && 0 <= y2 < 9 &&
              gameBoard.board[midX, midY] == Goose && gameBoard.board[x2, y2] == Empty;
    }

    /** `check_win`: the fox wins once ten geese are kicked out; otherwise
        the geese win when the fox, at its recorded position, has neither an
        empty neighbour nor a goose to jump into an empty cell. */
    method CheckWin() returns (status: GameStatus)
      requires Valid()
      requires geeseKicked >= WinningKicks || lastMoveEndPosition.Some?
      ensures status == FoxWin <==> geeseKicked >= WinningKicks
      ensures geeseKicked < WinningKicks ==>
                (status == GeeseWin <==> !FoxCanMove(gameBoard.Cells(), lastMoveEndPosition.value))
      ensures status == FoxWin || status == GeeseWin || status == ValidPosition
    {
      if geeseKicked >= WinningKicks {
        return FoxWin;
      }
      var foxPos := lastMoveEndPosition.value;
      var potentialMoves := StepCandidates(foxPos);
      var jumps := JumpCandidates(foxPos);
      potentialMoves := potentialMoves + jumps;
      var validMoves := potentialMoves;
      CandidatesMeanMobility(gameBoard.Cells(), foxPos);
      CandidatesAvoidFox(gameBoard.Cells(), foxPos);
      if validMoves == [] || (|validMoves| == 1 && lastMoveEndPosition == Some(validMoves[0])) {
        return GeeseWin;
      }
      return ValidPosition;
    }
  }
}
