/**
 * Day 1: a dial numbered 0..99 starts at 50 and is turned by a list of commands such as
 * `L68` or `R48`. Part 1 counts the commands after which the dial rests at 0; part 2 counts
 * every click that lands on 0, including those in the middle of a turn.
 *
 * Python's `%` by 100 and `//` by 100 agree with Dafny's Euclidean `%` and `/` for a
 * positive divisor, so they are written directly.
 */
module Day1 {
  import opened Common
  import opened PyText

  /** One command: the direction letter and the distance. */
  datatype Rotation = Rotation(dir: char, dist: int)

  /** `direction = line[0]; distance = int(line[1:])` on a stripped, non-blank line. */
  function ParseRotation(line: string): Option<Rotation>
    requires line != []
  {
    match ParseInt(line[1..])
    case None => None
    case Some(d) => Some(Rotation(line[0], d))
  }

  /** Where `k` single clicks move the dial: left, right, or (any other letter) nowhere. */
  function Offset(dir: char, k: int): int
  {
    if dir == 'L' then -k else if dir == 'R' then k else 0
  }

  /** The dial after a whole command: left for `L`, right for every other letter. */
  function Turn(pos: int, r: Rotation): (p: int)
    ensures 0 <= p < 100
  {
    if r.dir == 'L' then (pos - r.dist) % 100 else (pos + r.dist) % 100
  }

  /** How many of the clicks `1..n` of a walk from `pos` land on 0. */
  function ZerosUpTo(pos: int, dir: char, n: nat): nat
  {
    if n == 0 then 0
    else ZerosUpTo(pos, dir, n - 1) + (if (pos + Offset(dir, n)) % 100 == 0 then 1 else 0)
  }

  /** The dial position and both counters. */
  datatype Dial = Dial(pos: int, part1: int, part2: int)

  const Start := Dial(50, 0, 0)

  /**
   * One command: part 2 adds the full turns and the zeros of the remaining clicks, then
   * the dial turns and part 1 counts a stop at 0.
   */
  function Apply(s: Dial, r: Rotation): Dial
  {
    var p := Turn(s.pos, r);
    Dial(p, s.part1 + (if p == 0 then 1 else 0),
         s.part2 + r.dist / 100 + ZerosUpTo(s.pos, r.dir, r.dist % 100))
  }

  /** The dial after the commands, or `None` when a distance is not an integer. */
  function Run(lines: seq<string>): (r: Option<Dial>)
    requires forall k | 0 <= k < |lines| :: lines[k] != []
    ensures r.Some? ==> 0 <= r.value.pos < 100
  {
    if lines == [] then Some(Start)
    else
      var p := lines[..|lines| - 1];
      assert forall k | 0 <= k < |p| :: p[k] == lines[k];
      match (Run(p), ParseRotation(lines[|lines| - 1]))
      case (Some(s), Some(rot)) => Some(Apply(s, rot))
      case _ => None
  }

  /** Python's `(t - 1) % 100` and `(t + 1) % 100` on a value already reduced mod 100. */
  lemma ModStep(a: int, c: int)
    ensures (a % 100 + c) % 100 == (a + c) % 100
  {
    var q := a / 100;
    assert a == q * 100 + a % 100;
    assert a + c == (a % 100 + c) + q * 100;
  }

  /**
   * The part-2 walk: `remainder` single clicks from `pos`, counting the clicks that land
   * on 0. It ends where the whole offset lands.
   */
  method Walk(pos: int, dir: char, remainder: nat) returns (temp: int, hits: nat)
    requires 0 <= pos < 100
    ensures temp == (pos + Offset(dir, remainder)) % 100
    ensures hits == ZerosUpTo(pos, dir, remainder)
  {
    temp := pos;
    hits := 0;
    for k := 0 to remainder
      invariant temp == (pos + Offset(dir, k)) % 100
      invariant hits == ZerosUpTo(pos, dir, k)
    {
      if dir == 'L' {
        ModStep(pos - k, -1);
        temp := (temp - 1) % 100;
      } else if dir == 'R' {
        ModStep(pos + k, 1);
        temp := (temp + 1) % 100;
      }
      if temp == 0 {
        hits := hits + 1;
      }
    }
  }

  /** One command of `solve`, as the loop body does it. */
  method Command(s: Dial, r: Rotation) returns (t: Dial)
    requires 0 <= s.pos < 100
    ensures t == Apply(s, r)
  {
    var part2 := s.part2 + r.dist / 100;
    var remainder := r.dist % 100;
    var temp, hits := Walk(s.pos, r.dir, remainder);
    part2 := part2 + hits;
    var pos := if r.dir == 'L' then (s.pos - r.dist) % 100 else (s.pos + r.dist) % 100;
    var part1 := s.part1 + (if pos == 0 then 1 else 0);
    t := Dial(pos, part1, part2);
  }

  /**
   * `solve`: run every stripped non-blank line as a command from 50 and return both
   * counts; a distance that is not an integer raises.
   */
  method Solve(text: string) returns (r: Option<(int, int)>)
    ensures Run(StrippedLines(text)).None? ==> r.None?
    ensures Run(StrippedLines(text)).Some? ==>
      r == Some((Run(StrippedLines(text)).value.part1, Run(StrippedLines(text)).value.part2))
  {
    var lines := StrippedLines(text);
    var s := Start;
    for i := 0 to |lines|
      invariant Run(lines[..i]) == Some(s)
    {
      assert lines[..i + 1][..i] == lines[..i];
      var rot := ParseRotation(lines[i]);
      if rot.None? {
        RunStops(lines, i + 1);
        return None;
      }
      s := Command(s, rot.value);
    }
    assert lines[..|lines|] == lines;
    return Some((s.part1, s.part2));
  }

  /** A failing prefix makes the whole run fail. */
  lemma {:induction false} RunStops(lines: seq<string>, i: nat)
    requires forall k | 0 <= k < |lines| :: lines[k] != []
    requires i <= |lines| && Run(lines[..i]).None?
    ensures Run(lines).None?
  {
    if i < |lines| {
      assert lines[..|lines| - 1][..i] == lines[..i];
      RunStops(lines[..|lines| - 1], i);
    } else {
      assert lines[..i] == lines;
    }
  }

  // ---------------------------------------------------------------------------------------
  // Part 2's shortcut: a full turn passes 0 exactly once.

  /** The click count of a left or right walk repeats every 100 clicks. */
  lemma Periodic(pos: int, dir: char, k: int)
    requires dir == 'L' || dir == 'R'
    ensures (pos + Offset(dir, k + 100)) % 100 == (pos + Offset(dir, k)) % 100
  {
    var a := pos + Offset(dir, k);
    if dir == 'L' {
      assert pos + Offset(dir, k + 100) == a - 100;
    } else {
      assert pos + Offset(dir, k + 100) == a + 100;
    }
    ModStep(a, 100);
    ModStep(a, -100);
  }

  /** The first click of a left or right walk from `pos` that lands on 0. */
  function FirstZero(pos: int, dir: char): (k: nat)
    requires 0 <= pos < 100
    ensures 1 <= k <= 100
  {
    if pos == 0 then 100 else if dir == 'L' then pos else 100 - pos
  }

  /** Within the first 100 clicks, exactly one lands on 0. */
  lemma {:induction false} FirstTurn(pos: int, dir: char, n: nat)
    requires 0 <= pos < 100 && (dir == 'L' || dir == 'R') && n <= 100
    ensures ZerosUpTo(pos, dir, n) == if n >= FirstZero(pos, dir) then 1 else 0
  {
    if n > 0 {
      FirstTurn(pos, dir, n - 1);
      var v := pos + Offset(dir, n);
      if dir == 'L' {
        assert -100 <= v < 100;
        assert v % 100 == 0 <==> v == 0 || v == -100;
      } else {
        assert 1 <= v < 200;
        assert v % 100 == 0 <==> v == 100;
      }
    }
  }

  /** Any 100 consecutive clicks of a left or right walk land on 0 exactly once. */
  lemma {:induction false} Window(pos: int, dir: char, n: nat)
    requires 0 <= pos < 100 && (dir == 'L' || dir == 'R')
    ensures ZerosUpTo(pos, dir, n + 100) == ZerosUpTo(pos, dir, n) + 1
  {
    if n == 0 {
      FirstTurn(pos, dir, 100);
    } else {
      Window(pos, dir, n - 1);
      Periodic(pos, dir, n);
    }
  }

  /** `d // 100` full turns plus the zeros of the `d % 100` remaining clicks. */
  lemma {:induction false} FullTurns(pos: int, dir: char, d: nat)
    requires 0 <= pos < 100 && (dir == 'L' || dir == 'R')
    ensures d / 100 + ZerosUpTo(pos, dir, d % 100) == ZerosUpTo(pos, dir, d)
  {
    if d >= 100 {
      FullTurns(pos, dir, d - 100);
      Window(pos, dir, d - 100);
      assert (d - 100) / 100 == d / 100 - 1 && (d - 100) % 100 == d % 100;
    }
  }

  /**
   * For a left or right command of distance `d >= 0`, part 2 grows by the number of all
   * `d` clicks that land on 0, and the shortened walk ends where the whole turn does.
   */
  lemma CommandCountsEveryClick(s: Dial, r: Rotation)
    requires 0 <= s.pos < 100 && (r.dir == 'L' || r.dir == 'R') && r.dist >= 0
    ensures Apply(s, r).part2 == s.part2 + ZerosUpTo(s.pos, r.dir, r.dist)
    ensures (s.pos + Offset(r.dir, r.dist % 100)) % 100 == Apply(s, r).pos
  {
    FullTurns(s.pos, r.dir, r.dist);
    var q := r.dist / 100;
    assert r.dist == q * 100 + r.dist % 100;
    if r.dir == 'L' {
      ModStep(s.pos - r.dist % 100 - q * 100, q * 100);
      assert (s.pos - r.dist % 100 - q * 100) % 100 == (s.pos - r.dist % 100) % 100 by {
        DivModShift(s.pos - r.dist % 100, q);
      }
    } else {
      DivModShift(s.pos + r.dist % 100, q);
    }
  }

  /** Adding a multiple of 100 does not change the remainder. */
  lemma DivModShift(a: int, q: int)
    ensures (a + q * 100) % 100 == a % 100
    ensures (a - q * 100) % 100 == a % 100
  {
    var b := a / 100;
    assert a == b * 100 + a % 100;
    assert a + q * 100 == (b + q) * 100 + a % 100;
    assert a - q * 100 == (b - q) * 100 + a % 100;
  }
}
