/** The play session and the kernel's scoreboard, an online list of the best. */
module Session {
  import opened Wrappers

  const HISCORE_MAX: nat := 32
  const SESSION_NAME: nat := 13

  /** C strings: no NUL inside. */
  datatype Key = Key(game: string, user: string)
  datatype Entry = Entry(key: Key, score: int)

  // ---- Names ----

  predicate Safe(c: char) { 0x20 <= c as int <= 0x7E && c != '"' && c != '\\' }

  /** What copy_name keeps of a name. */
  function Cleaned(src: string): (r: string)
    ensures |r| == (if |src| < SESSION_NAME - 1 then |src| else SESSION_NAME - 1)
    ensures forall i :: 0 <= i < |r| ==> Safe(r[i]) && r[i] == if Safe(src[i]) then src[i] else '_'
  {
    var n := if |src| < SESSION_NAME - 1 then |src| else SESSION_NAME - 1;
    seq(n, i requires 0 <= i < n => if Safe(src[i]) then src[i] else '_')
  }

  /** The ends of the range, and what JSON would trip over. */
  lemma SafeEnds()
    ensures Safe(' ') && Safe('~') && !Safe(0x1F as char) && !Safe(0x7F as char) && !Safe('"') && !Safe('\\')
  {}

  /** Cleaning is done once and for all. */
  lemma CleanedTwice(src: string)
    ensures Cleaned(Cleaned(src)) == Cleaned(src)
  {}

  /** Where the last path component begins. */
  function BaseAt(n: string): (b: nat)
    ensures b <= |n| && (b > 0 ==> n[b - 1] == '/') && forall i :: b <= i < |n| ==> n[i] != '/'
  {
    if n == "" then 0 else if n[|n| - 1] == '/' then |n| else BaseAt(n[..|n| - 1])
  }

  /** The beginning of s, up to its first dot and to max characters. */
  function Stem(s: string, max: nat): (r: string)
    ensures r <= s && |r| <= max && '.' !in r && (|r| < max && |r| < |s| ==> s[|r|] == '.')
  {
    if s == "" || max == 0 || s[0] == '.' then "" else [s[0]] + Stem(s[1..], max - 1)
  }

  /** "/games/PONG.ELF" is "PONG". */
  function GameOf(task: string): string { Stem(task[BaseAt(task)..], 11) }

  /** The game of a task: the last path component, up to its first dot and to 11 characters. */
  lemma GameOfIs(task: string, b: nat)
    requires b <= |task| && (b > 0 ==> task[b - 1] == '/') && forall i :: b <= i < |task| ==> task[i] != '/'
    ensures var g := GameOf(task);
            && |g| <= 11 && b + |g| <= |task| && '.' !in g
            && (forall i :: 0 <= i < |g| ==> g[i] == task[b + i])
            && (|g| == 11 || b + |g| == |task| || task[b + |g|] == '.')
  {
    hide Stem, BaseAt;
    assert BaseAt(task) == b;
    var s := task[b..];
    assert GameOf(task) == s[..|GameOf(task)|];
    assert forall i :: 0 <= i < |s| ==> s[i] == task[b + i];
  }

  // ---- The board ----

  /** The entry of a key, from index i on. */
  function Find(es: seq<Entry>, k: Key, i: nat): (r: Option<nat>)
    requires i <= |es|
    ensures r.Some? ==> i <= r.value < |es| && es[r.value].key == k
    ensures r == None ==> forall j :: i <= j < |es| ==> es[j].key != k
    decreases |es| - i
  {
    if i == |es| then None else if es[i].key == k then Some(i) else Find(es, k, i + 1)
  }

  /** The first entry with the lowest score among the first n. */
  function Lowest(es: seq<Entry>, n: nat): (r: nat)
    requires 0 < n <= |es|
    ensures r < n && forall j :: 0 <= j < n ==> es[r].score <= es[j].score
    ensures forall j :: 0 <= j < r ==> es[r].score < es[j].score
  {
    if n == 1 then 0
    else
      var r := Lowest(es, n - 1);
      if es[n - 1].score < es[r].score then n - 1 else r
  }

  /** session_score_report for a game that counts. */
  function Report(es: seq<Entry>, k: Key, score: int): (r: seq<Entry>)
    requires |es| <= HISCORE_MAX
    ensures |r| <= HISCORE_MAX
  {
    match Find(es, k, 0)
    case Some(i) => if score > es[i].score then es[i := Entry(k, score)] else es
    case None =>
      if |es| < HISCORE_MAX then es + [Entry(k, score)]
      else
        var low := Lowest(es, HISCORE_MAX);
        if score <= es[low].score then es else es[low := Entry(k, score)]
  }

  /** An entry gives way only to its own better score, or on a full board, as the lowest, to a higher one. */
  lemma ReportEvicts(es: seq<Entry>, k: Key, score: int, i: nat)
    requires |es| <= HISCORE_MAX && i < |es|
    ensures var r := Report(es, k, score);
            && i < |r|
            && (r[i] != es[i] ==>
                 && r[i] == Entry(k, score) && score > es[i].score
                 && (es[i].key == k
                      || (|es| == HISCORE_MAX && forall j :: 0 <= j < |es| ==> es[i].score <= es[j].score)))
  {}

  /** Each player's best in each game. */
  type Best = map<Key, int>

  function Improve(best: Best, k: Key, score: int): (r: Best) {
    if k in best && best[k] >= score then best else best[k := score]
  }

  /** The board is an exact list of the best: no key twice, every score listed the best its key ever had, and a key
      that is missing is beaten or matched by everything on a full board. */
  ghost predicate TopList(es: seq<Entry>, best: Best) {
    && |es| <= HISCORE_MAX
    && (forall i, j :: 0 <= i < j < |es| ==> es[i].key != es[j].key)
    && (forall i :: 0 <= i < |es| ==> es[i].key in best && es[i].score == best[es[i].key])
    && (forall k :: k in best && Missing(es, k) ==>
          |es| == HISCORE_MAX && forall i :: 0 <= i < |es| ==> es[i].score >= best[k])
  }

  ghost predicate Missing(es: seq<Entry>, k: Key) {
    forall i :: 0 <= i < |es| ==> es[i].key != k
  }

  /** Keys that are missing after a change of one entry were missing before, unless the change removed them. */
  lemma MissingBefore(es: seq<Entry>, i: nat, e: Entry, q: Key)
    requires i < |es| && Missing(es[i := e], q)
    ensures es[i].key != q ==> Missing(es, q)
  {
    forall j | 0 <= j < |es| ensures es[i].key != q ==> es[j].key != q {
      assert es[i := e][j].key != q;
    }
  }

  lemma MissingAdded(es: seq<Entry>, e: Entry, q: Key)
    requires Missing(es + [e], q)
    ensures Missing(es, q) && q != e.key
  {
    assert (es + [e])[|es|] == e;
    forall j | 0 <= j < |es| ensures es[j].key != q { assert (es + [e])[j] == es[j]; }
  }

  /** One entry changed, to a score at least as high. */
  lemma ChangeKeeps(es: seq<Entry>, best: Best, i: nat, k: Key, score: int)
    requires TopList(es, best) && i < |es| && es[i].score < score && (es[i].key == k || Missing(es, k))
    requires es[i].key != k ==> |es| == HISCORE_MAX && forall j :: 0 <= j < |es| ==> es[i].score <= es[j].score
    ensures TopList(es[i := Entry(k, score)], Improve(best, k, score))
  {
    var r, b := es[i := Entry(k, score)], Improve(best, k, score);
    forall q | q in b && Missing(r, q) ensures |r| == HISCORE_MAX && forall j :: 0 <= j < |r| ==> r[j].score >= b[q] {
      MissingBefore(es, i, Entry(k, score), q);
      assert r[i].key == k;
      if es[i].key != q { assert Missing(es, q); }
    }
  }

  lemma ReportKeeps(es: seq<Entry>, best: Best, k: Key, score: int)
    requires TopList(es, best)
    ensures TopList(Report(es, k, score), Improve(best, k, score))
  {
    var r, b := Report(es, k, score), Improve(best, k, score);
    var f := Find(es, k, 0);
    if f.Some? {
      if score > es[f.value].score { ChangeKeeps(es, best, f.value, k, score); }
    } else {
      assert Missing(es, k);
      if |es| < HISCORE_MAX {
        forall q | q in b && Missing(r, q) ensures false {
          MissingAdded(es, Entry(k, score), q);
        }
      } else {
        var low := Lowest(es, HISCORE_MAX);
        if score > es[low].score { ChangeKeeps(es, best, low, k, score); }
      }
    }
  }

  /** A run of reports, from the empty board. */
  datatype Score = Score(key: Key, score: int)

  function BoardAfter(rs: seq<Score>): (es: seq<Entry>)
    ensures |es| <= HISCORE_MAX
  {
    if rs == [] then [] else Report(BoardAfter(rs[..|rs| - 1]), rs[|rs| - 1].key, rs[|rs| - 1].score)
  }

  function BestAfter(rs: seq<Score>): (best: Best) {
    if rs == [] then map[] else Improve(BestAfter(rs[..|rs| - 1]), rs[|rs| - 1].key, rs[|rs| - 1].score)
  }

  /** BestAfter is what it says: reached by one report, and not exceeded by any. */
  lemma {:induction false} BestIsBest(rs: seq<Score>, k: Key)
    ensures k in BestAfter(rs) <==> exists i :: 0 <= i < |rs| && rs[i].key == k
    ensures k in BestAfter(rs) ==> exists i :: 0 <= i < |rs| && rs[i].key == k && rs[i].score == BestAfter(rs)[k]
    ensures k in BestAfter(rs) ==> forall i :: 0 <= i < |rs| && rs[i].key == k ==> rs[i].score <= BestAfter(rs)[k]
    decreases |rs|
  {
    if rs != [] {
      var front, n := rs[..|rs| - 1], |rs| - 1;
      BestIsBest(front, k);
      assert forall i :: 0 <= i < n ==> front[i] == rs[i];
      if k in BestAfter(front) {
        var i :| 0 <= i < |front| && front[i].key == k && front[i].score == BestAfter(front)[k];
        assert rs[i].key == k && rs[i].score == BestAfter(front)[k];
      }
    }
  }

  /** After any run of reports the board is the list of the best, evictions and re-entries notwithstanding. */
  lemma {:induction false} BoardIsTop(rs: seq<Score>)
    ensures TopList(BoardAfter(rs), BestAfter(rs))
    decreases |rs|
  {
    hide TopList, Report, Improve;
    if rs == [] {
      EmptyTop();
    } else {
      BoardIsTop(rs[..|rs| - 1]);
      ReportKeeps(BoardAfter(rs[..|rs| - 1]), BestAfter(rs[..|rs| - 1]), rs[|rs| - 1].key, rs[|rs| - 1].score);
    }
  }

  lemma EmptyTop()
    ensures TopList([], map[])
  {}

  class Scoreboard {
    var players: nat
    var player1: string
    var player2: string
    const board: array<Entry>
    var count: nat
    ghost var best: Best

    ghost predicate Valid()
      reads this, board
    {
      && board.Length == HISCORE_MAX && count <= HISCORE_MAX && (players == 1 || players == 2)
      && TopList(board[..count], best) && player1 == Cleaned(player1) && player1 != ""
    }

    constructor ()
      ensures Valid() && fresh(board) && best == map[] && player1 == "GUEST"
    {
      players, player1, player2, count, best := 1, "GUEST", "", 0, map[];
      board := new Entry[HISCORE_MAX](i => Entry(Key("", ""), 0));
      new;
      EmptyTop();
      assert board[..0] == [];
    }

    /** copy_name. */
    static method CopyName(src: string) returns (dst: string)
      ensures dst == Cleaned(src)
    {
      dst := "";
      var i := 0;
      while i < SESSION_NAME - 1 && i < |src|
        invariant i == |dst| <= |src| && i <= SESSION_NAME - 1
        invariant forall j :: 0 <= j < i ==> dst[j] == if Safe(src[j]) then src[j] else '_'
      {
        var c := src[i];
        if c as int < 0x20 || c as int > 0x7E || c == '"' || c == '\\' {
          c := '_';
        }
        dst := dst + [c];
        i := i + 1;
      }
    }

    /** session_set. */
    method SessionSet(n: int, p1: string, p2: string)
      requires Valid()
      modifies this`players, this`player1, this`player2
      ensures Valid()
      ensures players == (if n == 2 then 2 else 1) && player1 == Cleaned(if p1 != "" then p1 else "GUEST")
      ensures player2 == if n == 2 then Cleaned(if p2 != "" then p2 else "GUEST 2") else ""
    {
      players := if n == 2 then 2 else 1;
      player1 := CopyName(if p1 != "" then p1 else "GUEST");
      CleanedTwice(if p1 != "" then p1 else "GUEST");
      if players == 2 {
        player2 := CopyName(if p2 != "" then p2 else "GUEST 2");
      } else {
        player2 := "";
      }
    }

    /** game_of_task, first loop. */
    static method BaseOf(n: string) returns (base: nat)
      ensures base == BaseAt(n)
    {
      base := 0;
      var p := 0;
      while p < |n|
        invariant p <= |n| && base == BaseAt(n[..p])
      {
        assert n[..p + 1][..p] == n[..p];
        if n[p] == '/' {
          base := p + 1;
        }
        p := p + 1;
      }
      assert n[..p] == n;
    }

    /** game_of_task, second loop. */
    static method StemOf(s: string, max: nat) returns (g: string)
      ensures g == Stem(s, max)
    {
      hide *;
      g := "";
      var i := 0;
      assert s[0..] == s;
      while i < max && i < |s| && s[i] != '.'
        invariant i <= |s| && i <= max && Stem(s, max) == g + Stem(s[i..], max - i)
      {
        StemStep(s[i..], max - i);
        assert s[i..][1..] == s[i + 1..];
        Append(g, s[i], Stem(s[i + 1..], max - i - 1));
        g := g + [s[i]];
        i := i + 1;
      }
      StemStops(s[i..], max - i);
      assert g + "" == g;
    }

    static lemma StemStops(s: string, max: nat)
      requires s == "" || max == 0 || s[0] == '.'
      ensures Stem(s, max) == ""
    {}

    static lemma StemStep(s: string, max: nat)
      requires s != "" && max > 0 && s[0] != '.'
      ensures Stem(s, max) == [s[0]] + Stem(s[1..], max - 1)
    {}

    static lemma Append(g: string, c: char, t: string)
      ensures g + ([c] + t) == g + [c] + t
    {}

    /** game_of_task. */
    static method GameOfTask(n: string) returns (g: string)
      ensures g == GameOf(n)
    {
      var base := BaseOf(n);
      g := StemOf(n[base..], 11);
    }

    /** session_score_report, for the task that runs. */
    method ScoreReport(task: string, score: int)
      requires Valid()
      modifies this`count, this`best, board
      ensures Valid()
      ensures var game := GameOf(task);
              if score <= 0 || game == "" || game == "LAUNCHER" then
                board[..count] == old(board[..count]) && best == old(best)
              else
                && board[..count] == Report(old(board[..count]), Key(game, player1), score)
                && best == Improve(old(best), Key(game, player1), score)
    {
      hide TopList, Improve, Cleaned, GameOf;
      if score <= 0 {
        return;
      }
      var g := GameOfTask(task);
      if g == "" || g == "LAUNCHER" {
        return;
      }
      Enter(Key(g, player1), score);
    }

    /** Find the entry, or make room for it. */
    method Enter(key: Key, score: int)
      requires Valid()
      modifies this`count, this`best, board
      ensures Valid()
      ensures board[..count] == Report(old(board[..count]), key, score) && best == Improve(old(best), key, score)
    {
      hide TopList, Improve, Cleaned, Lowest;
      ghost var es := board[..count];
      ReportKeeps(es, best, key, score);
      best := Improve(best, key, score);
      var i := 0;
      while i < count && board[i].key != key
        invariant i <= count && Find(es, key, 0) == Find(es, key, i)
      {
        i := i + 1;
      }
      if i < count {
        if score > board[i].score {
          board[i] := Entry(key, score);
          assert board[..count] == es[i := Entry(key, score)];
        }
        return;
      }
      if count >= HISCORE_MAX {
        var slot := LowestSlot();
        if score <= board[slot].score {
          return;
        }
        board[slot] := Entry(key, score);
        assert board[..count] == es[slot := Entry(key, score)];
      } else {
        board[count] := Entry(key, score);
        count := count + 1;
        assert board[..count] == es + [Entry(key, score)];
      }
    }

    /** The first of the lowest scores. */
    method LowestSlot() returns (slot: nat)
      requires board.Length == HISCORE_MAX == count
      ensures slot < HISCORE_MAX && slot == Lowest(board[..count], HISCORE_MAX)
    {
      slot := 0;
      var i := 1;
      while i < HISCORE_MAX
        invariant 1 <= i <= HISCORE_MAX && slot < i && slot == Lowest(board[..count], i)
      {
        if board[i].score < board[slot].score {
          slot := i;
        }
        i := i + 1;
      }
    }
  }
}
