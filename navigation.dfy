/**
 * Navigation rules (app.py lines 99-101 and 135-140): one integer position,
 * starting at 0, moved by "Previous" and "Next" with clamping and no
 * wrap-around.
 */
module Navigation {

  datatype Move = Previous | Next

  const START: int := 0

  /** "Previous": step back unless already at the first position. */
  function Retreat(index: int): (r: int)
    ensures r == index || r == index - 1
    ensures 0 <= index ==> 0 <= r
    ensures r == index <==> index <= 0
  {
    if index > 0 then index - 1 else index
  }

  /** "Next": step forward unless already at the last of `total` positions. */
  function Advance(index: int, total: int): (r: int)
    ensures r == index || r == index + 1
    ensures index < total ==> r < total
    ensures r == index <==> index >= total - 1
  {
    if index < total - 1 then index + 1 else index
  }

  function Step(index: int, total: int, m: Move): int
  {
    match m
    case Previous => Retreat(index)
    case Next => Advance(index, total)
  }

  /** The position after the button clicks `moves`, one per run of the script. */
  function Run(index: int, total: int, moves: seq<Move>): int
    decreases |moves|
  {
    if moves == [] then index else Run(Step(index, total, moves[0]), total, moves[1..])
  }

  /** On a non-empty corpus, no sequence of clicks leaves the range of positions. */
  lemma {:induction false} RunStaysInRange(index: int, total: int, moves: seq<Move>)
    requires 0 <= index < total
    ensures 0 <= Run(index, total, moves) < total
    decreases |moves|
  {
    if moves != [] {
      RunStaysInRange(Step(index, total, moves[0]), total, moves[1..]);
    }
  }

  /** Inside the range, both moves clamp: max(index - 1, 0) and min(index + 1, total - 1). */
  lemma MovesClamp(index: int, total: int)
    requires 0 <= index < total
    ensures Retreat(index) == if index - 1 < 0 then 0 else index - 1
    ensures Advance(index, total) == if index + 1 > total - 1 then total - 1 else index + 1
  {
  }

  function Repeat(m: Move, k: nat): (r: seq<Move>)
    ensures |r| == k
  {
    if k == 0 then [] else [m] + Repeat(m, k - 1)
  }

  /** `k` clicks on "Next" from position `index` stop at the last position. */
  lemma {:induction false} NextSaturates(index: int, total: int, k: nat)
    requires 0 <= index < total
    ensures Run(index, total, Repeat(Next, k)) == if index + k < total - 1 then index + k else total - 1
    decreases k
  {
    if k > 0 {
      assert Repeat(Next, k)[0] == Next && Repeat(Next, k)[1..] == Repeat(Next, k - 1);
      NextSaturates(Advance(index, total), total, k - 1);
    }
  }

  /** `k` clicks on "Previous" from position `index` stop at the first position. */
  lemma {:induction false} PreviousSaturates(index: int, total: int, k: nat)
    requires 0 <= index < total
    ensures Run(index, total, Repeat(Previous, k)) == if index - k > 0 then index - k else 0
    decreases k
  {
    if k > 0 {
      assert Repeat(Previous, k)[0] == Previous && Repeat(Previous, k)[1..] == Repeat(Previous, k - 1);
      PreviousSaturates(Retreat(index), total, k - 1);
    }
  }
}
