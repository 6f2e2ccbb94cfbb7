/** Threads that write one shared array. A thread is the ordered list of writes it issues; a run
    is any interleaving of those lists. Two ways for the final contents not to depend on the run:
    a cell that only one thread writes, and a cell that is only added to. */
module Interleave {

  datatype Write = Store(cell: int, value: real) | AtomicAdd(cell: int, value: real)

  datatype Event = Event(thread: nat, write: Write)

  /** The writes that thread g issues in a run, in order. */
  function Proj(trace: seq<Event>, g: nat): seq<Write> {
    if trace == [] then [] else
      var n := |trace| - 1;
      if trace[n].thread == g then Proj(trace[..n], g) + [trace[n].write] else Proj(trace[..n], g)
  }

  /** trace is a complete run of the threads: it has nothing but their writes, each list in order. */
  ghost predicate Interleaving(trace: seq<Event>, progs: seq<seq<Write>>) {
    && (forall i | 0 <= i < |trace| :: trace[i].thread < |progs|)
    && (forall g | 0 <= g < |progs| :: Proj(trace, g) == progs[g])
  }

  function Writes(trace: seq<Event>): (ws: seq<Write>)
    ensures |ws| == |trace|
  {
    seq(|trace|, i requires 0 <= i < |trace| => trace[i].write)
  }

  ghost predicate InBounds(ws: seq<Write>, size: nat) {
    forall i | 0 <= i < |ws| :: 0 <= ws[i].cell < size
  }

  ghost predicate AllInBounds(progs: seq<seq<Write>>, size: nat) {
    forall g | 0 <= g < |progs| :: InBounds(progs[g], size)
  }

  function Apply(mem: seq<real>, w: Write): (mem': seq<real>)
    requires 0 <= w.cell < |mem|
    ensures |mem'| == |mem|
  {
    match w
    case Store(c, v) => mem[c := v]
    case AtomicAdd(c, v) => mem[c := mem[c] + v]
  }

  /** Memory after the writes ws, in that order. */
  ghost function Run(mem: seq<real>, ws: seq<Write>): (mem': seq<real>)
    requires InBounds(ws, |mem|)
    ensures |mem'| == |mem|
  {
    if ws == [] then mem else
      var n := |ws| - 1;
      Apply(Run(mem, ws[..n]), ws[n])
  }

  lemma {:induction false} RunUntouched(mem: seq<real>, ws: seq<Write>, c: int)
    requires InBounds(ws, |mem|) && 0 <= c < |mem|
    requires forall i | 0 <= i < |ws| :: ws[i].cell != c
    ensures Run(mem, ws)[c] == mem[c]
  {
    if ws != [] {
      RunUntouched(mem, ws[..|ws| - 1], c);
    }
  }

  lemma {:induction false} RunConcat(mem: seq<real>, a: seq<Write>, b: seq<Write>)
    requires InBounds(a, |mem|) && InBounds(b, |mem|)
    ensures InBounds(a + b, |mem|)
    ensures Run(mem, a + b) == Run(Run(mem, a), b)
  {
    if b == [] {
      assert a + b == a;
    } else {
      var n := |b| - 1;
      RunConcat(mem, a, b[..n]);
      assert (a + b)[..|a| + n] == a + b[..n];
    }
  }

  // ---------- where a thread's writes sit in a run ----------

  lemma {:induction false} ProjPrefix(trace: seq<Event>, k: nat, g: nat)
    requires k <= |trace|
    ensures Proj(trace[..k], g) <= Proj(trace, g)
  {
    if k == |trace| {
      assert trace[..k] == trace;
    } else {
      var n := |trace| - 1;
      ProjPrefix(trace[..n], k, g);
      assert trace[..n][..k] == trace[..k];
    }
  }

  /** Event i of a run is the next write of its thread: the one numbered by how many came before. */
  lemma ProjAt(trace: seq<Event>, i: nat)
    requires i < |trace|
    ensures var g := trace[i].thread; var pos := |Proj(trace[..i], g)|;
            pos < |Proj(trace, g)| && Proj(trace, g)[pos] == trace[i].write
  {
    var g := trace[i].thread;
    ProjPrefix(trace, i + 1, g);
    assert trace[..i + 1][..i] == trace[..i];
  }

  lemma ProjLater(trace: seq<Event>, i: nat, j: nat)
    requires i < j < |trace|
    ensures |Proj(trace[..i], trace[i].thread)| < |Proj(trace[..j], trace[i].thread)|
  {
    var g := trace[i].thread;
    ProjPrefix(trace[..j], i + 1, g);
    assert trace[..j][..i + 1] == trace[..i + 1];
    assert trace[..i + 1][..i] == trace[..i];
  }

  lemma InterleavingInBounds(trace: seq<Event>, progs: seq<seq<Write>>, size: nat)
    requires Interleaving(trace, progs) && AllInBounds(progs, size)
    ensures InBounds(Writes(trace), size)
  {
    forall i | 0 <= i < |trace|
      ensures 0 <= Writes(trace)[i].cell < size
    {
      ProjAt(trace, i);
      assert InBounds(progs[trace[i].thread], size);
    }
  }

  // ---------- cells written by one thread ----------

  /** Only thread g writes cell c. */
  ghost predicate Owns(progs: seq<seq<Write>>, g: nat, c: int) {
    forall h, i | 0 <= h < |progs| && 0 <= i < |progs[h]| && progs[h][i].cell == c :: h == g
  }

  lemma {:induction false} OwnedPrefix(mem: seq<real>, trace: seq<Event>, g: nat, c: int)
    requires InBounds(Writes(trace), |mem|) && InBounds(Proj(trace, g), |mem|) && 0 <= c < |mem|
    requires forall i | 0 <= i < |trace| && trace[i].write.cell == c :: trace[i].thread == g
    ensures Run(mem, Writes(trace))[c] == Run(mem, Proj(trace, g))[c]
  {
    if trace != [] {
      var n := |trace| - 1;
      var before := trace[..n];
      assert Writes(trace)[..n] == Writes(before);
      ProjPrefix(trace, n, g);
      assert InBounds(Proj(before, g), |mem|) by {
        forall i | 0 <= i < |Proj(before, g)|
          ensures 0 <= Proj(before, g)[i].cell < |mem|
        {
          assert Proj(before, g)[i] == Proj(trace, g)[i];
        }
      }
      assert InBounds(Writes(before), |mem|) by {
        assert forall i | 0 <= i < n :: Writes(before)[i] == Writes(trace)[i];
      }
      OwnedPrefix(mem, before, g, c);
      if trace[n].thread == g {
        assert Proj(trace, g)[..|Proj(before, g)|] == Proj(before, g);
      }
    }
  }

  /** A cell that only thread g writes ends, in every run, as if g had run alone. */
  lemma OwnedCellIsScheduleIndependent(
      mem: seq<real>, progs: seq<seq<Write>>, trace: seq<Event>, g: nat, c: int)
    requires Interleaving(trace, progs) && AllInBounds(progs, |mem|)
    requires g < |progs| && 0 <= c < |mem| && Owns(progs, g, c)
    ensures InBounds(Writes(trace), |mem|) && InBounds(progs[g], |mem|)
    ensures Run(mem, Writes(trace))[c] == Run(mem, progs[g])[c]
  {
    InterleavingInBounds(trace, progs, |mem|);
    assert InBounds(progs[g], |mem|);
    forall i | 0 <= i < |trace| && trace[i].write.cell == c
      ensures trace[i].thread == g
    {
      ProjAt(trace, i);
      var h := trace[i].thread;
      assert progs[h][|Proj(trace[..i], h)|].cell == c;
    }
    OwnedPrefix(mem, trace, g, c);
  }

  /** A cell no thread writes keeps its value in every run. */
  lemma UnwrittenCellIsKept(mem: seq<real>, progs: seq<seq<Write>>, trace: seq<Event>, c: int)
    requires Interleaving(trace, progs) && AllInBounds(progs, |mem|) && 0 <= c < |mem|
    requires forall g, i | 0 <= g < |progs| && 0 <= i < |progs[g]| :: progs[g][i].cell != c
    ensures InBounds(Writes(trace), |mem|)
    ensures Run(mem, Writes(trace))[c] == mem[c]
  {
    InterleavingInBounds(trace, progs, |mem|);
    forall i | 0 <= i < |trace|
      ensures Writes(trace)[i].cell != c
    {
      ProjAt(trace, i);
      var h := trace[i].thread;
      assert progs[h][|Proj(trace[..i], h)|].cell != c;
    }
    RunUntouched(mem, Writes(trace), c);
  }

  // ---------- cells that are added to ----------

  /** Everything written to cell c, added up. */
  function Total(ws: seq<Write>, c: int): real {
    if ws == [] then 0.0 else
      var n := |ws| - 1;
      Total(ws[..n], c) + if ws[n].cell == c then ws[n].value else 0.0
  }

  lemma TotalSnoc(ws: seq<Write>, w: Write, c: int)
    ensures Total(ws + [w], c) == Total(ws, c) + if w.cell == c then w.value else 0.0
  {
    assert (ws + [w])[..|ws|] == ws;
  }

  /** The same over the first n threads. */
  function TotalOf(progs: seq<seq<Write>>, n: nat, c: int): real
    requires n <= |progs|
  {
    if n == 0 then 0.0 else TotalOf(progs, n - 1, c) + Total(progs[n - 1], c)
  }

  lemma {:induction false} TotalUntouched(ws: seq<Write>, c: int)
    requires forall i | 0 <= i < |ws| :: ws[i].cell != c
    ensures Total(ws, c) == 0.0
  {
    if ws != [] {
      TotalUntouched(ws[..|ws| - 1], c);
    }
  }

  /** A plain store has its cell to itself: nothing else, by any thread, writes there. */
  ghost predicate Exclusive(progs: seq<seq<Write>>) {
    forall g, i, h, j |
      0 <= g < |progs| && 0 <= i < |progs[g]| && 0 <= h < |progs| && 0 <= j < |progs[h]|
      && progs[g][i].Store? && progs[h][j].cell == progs[g][i].cell ::
      g == h && i == j
  }

  ghost predicate LoneStores(ws: seq<Write>) {
    forall i, j | 0 <= i < |ws| && 0 <= j < |ws| && ws[i].Store? && ws[j].cell == ws[i].cell :: i == j
  }

  /** In every run of exclusive threads, a cell that is stored to is written exactly once. */
  lemma ExclusiveRunsHaveLoneStores(trace: seq<Event>, progs: seq<seq<Write>>)
    requires Interleaving(trace, progs) && Exclusive(progs)
    ensures LoneStores(Writes(trace))
  {
    var ws := Writes(trace);
    forall i, j | 0 <= i < |ws| && 0 <= j < |ws| && ws[i].Store? && ws[j].cell == ws[i].cell
      ensures i == j
    {
      ProjAt(trace, i);
      ProjAt(trace, j);
      var g, h := trace[i].thread, trace[j].thread;
      assert g == h && |Proj(trace[..i], g)| == |Proj(trace[..j], h)|;
      if i < j {
        ProjLater(trace, i, j);
      } else if j < i {
        ProjLater(trace, j, i);
      }
    }
  }

  lemma {:induction false} LoneStoresAddUp(mem: seq<real>, ws: seq<Write>, c: int)
    requires InBounds(ws, |mem|) && LoneStores(ws) && 0 <= c < |mem| && mem[c] == 0.0
    ensures Run(mem, ws)[c] == Total(ws, c)
  {
    if ws != [] {
      var n := |ws| - 1;
      LoneStoresAddUp(mem, ws[..n], c);
      if ws[n].Store? && ws[n].cell == c {
        assert forall j | 0 <= j < n :: ws[j].cell != c;
        TotalUntouched(ws[..n], c);
      }
    }
  }

  function ProjAll(trace: seq<Event>, n: nat): (p: seq<seq<Write>>)
    ensures |p| == n
  {
    seq(n, g requires 0 <= g < n => Proj(trace, g))
  }

  lemma {:induction false} TotalOfSame(p: seq<seq<Write>>, q: seq<seq<Write>>, n: nat, c: int)
    requires n <= |p| && n <= |q| && p[..n] == q[..n]
    ensures TotalOf(p, n, c) == TotalOf(q, n, c)
  {
    if n != 0 {
      assert p[n - 1] == p[..n][n - 1] == q[..n][n - 1] == q[n - 1];
      assert p[..n - 1] == p[..n][..n - 1] && q[..n - 1] == q[..n][..n - 1];
      TotalOfSame(p, q, n - 1, c);
    }
  }

  lemma TotalProjSnoc(trace: seq<Event>, e: Event, g: nat, c: int)
    ensures Total(Proj(trace + [e], g), c)
         == Total(Proj(trace, g), c) + if e.thread == g && e.write.cell == c then e.write.value else 0.0
  {
    assert (trace + [e])[..|trace|] == trace;
    var before := Proj(trace, g);
    assert (before + [e.write])[..|before|] == before;
  }

  lemma {:induction false} TotalOfSnoc(trace: seq<Event>, e: Event, threads: nat, n: nat, c: int)
    requires n <= threads
    ensures TotalOf(ProjAll(trace + [e], threads), n, c)
         == TotalOf(ProjAll(trace, threads), n, c)
            + if e.thread < n && e.write.cell == c then e.write.value else 0.0
  {
    if n != 0 {
      TotalOfSnoc(trace, e, threads, n - 1, c);
      TotalProjSnoc(trace, e, n - 1, c);
    }
  }

  /** What a run writes to a cell is what its threads write there, in whatever order. */
  lemma {:induction false} TotalOfRun(trace: seq<Event>, threads: nat, c: int)
    requires forall i | 0 <= i < |trace| :: trace[i].thread < threads
    ensures Total(Writes(trace), c) == TotalOf(ProjAll(trace, threads), threads, c)
  {
    if trace == [] {
      TotalOfNothing(threads, threads, c);
    } else {
      var n := |trace| - 1;
      TotalOfRun(trace[..n], threads, c);
      TotalOfSnoc(trace[..n], trace[n], threads, threads, c);
      assert trace == trace[..n] + [trace[n]];
      assert Writes(trace)[..n] == Writes(trace[..n]);
    }
  }

  lemma {:induction false} TotalOfNothing(threads: nat, n: nat, c: int)
    requires n <= threads
    ensures TotalOf(ProjAll([], threads), n, c) == 0.0
  {
    if n != 0 {
      TotalOfNothing(threads, n - 1, c);
    }
  }

  /** Exclusive threads over a zero cell: every run leaves there the sum of all that is written. */
  lemma EveryRunSums(mem: seq<real>, progs: seq<seq<Write>>, trace: seq<Event>, c: int)
    requires Interleaving(trace, progs) && AllInBounds(progs, |mem|) && Exclusive(progs)
    requires 0 <= c < |mem| && mem[c] == 0.0
    ensures InBounds(Writes(trace), |mem|)
    ensures Run(mem, Writes(trace))[c] == TotalOf(progs, |progs|, c)
  {
    InterleavingInBounds(trace, progs, |mem|);
    ExclusiveRunsHaveLoneStores(trace, progs);
    LoneStoresAddUp(mem, Writes(trace), c);
    TotalOfRun(trace, |progs|, c);
    TotalOfSame(ProjAll(trace, |progs|), progs, |progs|, c);
  }

  /** If each thread moves a running value from f[g] to f[g + 1], all of them move it from first to last. */
  lemma {:induction false} TotalOfTelescopes(progs: seq<seq<Write>>, n: nat, c: int, f: seq<real>)
    requires n <= |progs| && |f| == |progs| + 1
    requires forall g | 0 <= g < |progs| :: Total(progs[g], c) == f[g + 1] - f[g]
    ensures TotalOf(progs, n, c) == f[n] - f[0]
  {
    if n != 0 {
      TotalOfTelescopes(progs, n - 1, c, f);
    }
  }

  // ---------- cells that are only stored to ----------

  ghost predicate Touches(ws: seq<Write>, c: int) {
    exists i | 0 <= i < |ws| :: ws[i].cell == c
  }

  ghost predicate OnlyStored(ws: seq<Write>, c: int) {
    forall i | 0 <= i < |ws| && ws[i].cell == c :: ws[i].Store?
  }

  lemma TouchesSnoc(ws: seq<Write>, w: Write, c: int)
    ensures Touches(ws + [w], c) <==> Touches(ws, c) || w.cell == c
  {
    if Touches(ws, c) {
      var i :| 0 <= i < |ws| && ws[i].cell == c;
      assert (ws + [w])[i].cell == c;
    }
    assert (ws + [w])[|ws|] == w;
  }

  lemma {:induction false} ProjInBounds(trace: seq<Event>, g: nat, size: nat)
    requires InBounds(Writes(trace), size)
    ensures InBounds(Proj(trace, g), size)
  {
    if trace != [] {
      var n := |trace| - 1;
      assert Writes(trace)[..n] == Writes(trace[..n]) && Writes(trace)[n] == trace[n].write;
      ProjInBounds(trace[..n], g, size);
    }
  }

  /** A cell that is only stored to ends, in every run, as the thread that wrote it last leaves it alone. */
  lemma {:induction false} LastWriter(mem: seq<real>, trace: seq<Event>, c: int) returns (g: nat)
    requires InBounds(Writes(trace), |mem|) && 0 <= c < |mem| && OnlyStored(Writes(trace), c)
    ensures InBounds(Proj(trace, g), |mem|)
    ensures Touches(Writes(trace), c) ==>
              Touches(Proj(trace, g), c) && Run(mem, Writes(trace))[c] == Run(mem, Proj(trace, g))[c]
  {
    if trace == [] {
      g := 0;
    } else {
      var n := |trace| - 1;
      var before, e := trace[..n], trace[n];
      assert trace == before + [e];
      WritesSnoc(before, e);
      assert Writes(before) == Writes(trace)[..n] && Writes(trace)[n] == e.write;
      TouchesSnoc(Writes(before), e.write, c);
      RunSnoc(mem, Writes(before), e.write);
      g := LastWriter(mem, before, c);
      if e.write.cell == c {
        g := e.thread;
      }
      LastWriterStep(mem, before, e, g);
    }
  }

  lemma LastWriterStep(mem: seq<real>, before: seq<Event>, e: Event, g: nat)
    requires InBounds(Writes(before), |mem|) && 0 <= e.write.cell < |mem|
    ensures InBounds(Proj(before, g), |mem|) && InBounds(Proj(before + [e], g), |mem|)
    ensures if e.thread == g then Run(mem, Proj(before + [e], g)) == Apply(Run(mem, Proj(before, g)), e.write)
            else Proj(before + [e], g) == Proj(before, g)
    ensures forall c ::
              Touches(Proj(before + [e], g), c)
              <==> Touches(Proj(before, g), c) || (e.thread == g && e.write.cell == c)
  {
    ProjInBounds(before, g, |mem|);
    ProjSnoc(before, e, g);
    if e.thread == g {
      RunSnoc(mem, Proj(before, g), e.write);
      forall c
        ensures Touches(Proj(before + [e], g), c) <==> Touches(Proj(before, g), c) || e.write.cell == c
      {
        TouchesSnoc(Proj(before, g), e.write, c);
      }
    }
  }

  // ---------- the machine ----------

  /** The writes still to be issued, as (thread, position) pairs. */
  ghost function Pending(progs: seq<seq<Write>>, pos: seq<nat>): set<(int, int)>
    requires |pos| == |progs|
  {
    set g, i | 0 <= g < |progs| && pos[g] <= i < |progs[g]| :: (g, i)
  }

  lemma PendingShrinks(progs: seq<seq<Write>>, pos: seq<nat>, g: nat)
    requires |pos| == |progs| && g < |progs| && pos[g] < |progs[g]|
    ensures Pending(progs, pos[g := pos[g] + 1]) < Pending(progs, pos)
  {
    var p, q := Pending(progs, pos), Pending(progs, pos[g := pos[g] + 1]);
    assert (g, pos[g] as int) in p && (g, pos[g] as int) !in q;
    forall e | e in q
      ensures e in p
    {
    }
  }

  /** After issuing pos[g] writes of every thread g, the run so far is trace. */
  ghost predicate Progress(progs: seq<seq<Write>>, pos: seq<nat>, trace: seq<Event>, size: nat) {
    && |pos| == |progs|
    && (forall g | 0 <= g < |progs| :: pos[g] <= |progs[g]| && Proj(trace, g) == progs[g][..pos[g]])
    && (forall i | 0 <= i < |trace| :: trace[i].thread < |progs|)
    && InBounds(Writes(trace), size)
  }

  lemma ProgressStep(progs: seq<seq<Write>>, pos: seq<nat>, trace: seq<Event>, size: nat, g: nat)
    requires Progress(progs, pos, trace, size) && AllInBounds(progs, size)
    requires g < |progs| && pos[g] < |progs[g]|
    ensures var w := progs[g][pos[g]];
            && 0 <= w.cell < size
            && Progress(progs, pos[g := pos[g] + 1], trace + [Event(g, w)], size)
  {
    assert InBounds(progs[g], size);
    var w := progs[g][pos[g]];
    var trace', pos' := trace + [Event(g, w)], pos[g := pos[g] + 1];
    forall h | 0 <= h < |progs|
      ensures pos'[h] <= |progs[h]| && Proj(trace', h) == progs[h][..pos'[h]]
    {
      ProjSnoc(trace, Event(g, w), h);
    }
    WritesSnoc(trace, Event(g, w));
  }

  lemma RunSnoc(mem: seq<real>, ws: seq<Write>, w: Write)
    requires InBounds(ws, |mem|) && 0 <= w.cell < |mem|
    ensures InBounds(ws + [w], |mem|)
    ensures Run(mem, ws + [w]) == Apply(Run(mem, ws), w)
  {
    assert (ws + [w])[..|ws|] == ws;
  }

  lemma ProjSnoc(trace: seq<Event>, e: Event, h: nat)
    ensures Proj(trace + [e], h) == if e.thread == h then Proj(trace, h) + [e.write] else Proj(trace, h)
  {
    assert (trace + [e])[..|trace|] == trace;
  }

  lemma WritesSnoc(trace: seq<Event>, e: Event)
    ensures Writes(trace + [e]) == Writes(trace) + [e.write]
    ensures Writes(trace + [e])[..|trace|] == Writes(trace)
  {
  }

  method Issue(mem: array<real>, w: Write)
    requires 0 <= w.cell < mem.Length
    modifies mem
    ensures mem[..] == Apply(old(mem[..]), w)
  {
    match w {
      case Store(c, v) => mem[c] := v;
      case AtomicAdd(c, v) => mem[c] := mem[c] + v;
    }
  }

  /** Run the threads on mem: again and again let any unfinished thread issue its next write. */
  method Execute(progs: seq<seq<Write>>, mem: array<real>) returns (ghost trace: seq<Event>)
    requires AllInBounds(progs, mem.Length)
    modifies mem
    ensures Interleaving(trace, progs)
    ensures InBounds(Writes(trace), mem.Length)
    ensures mem[..] == Run(old(mem[..]), Writes(trace))
  {
    trace := [];
    var pos: seq<nat> := seq(|progs|, _ => 0);
    while exists g :: 0 <= g < |progs| && pos[g] < |progs[g]|
      invariant Progress(progs, pos, trace, mem.Length)
      invariant mem[..] == Run(old(mem[..]), Writes(trace))
      decreases Pending(progs, pos)
    {
      var g :| 0 <= g < |progs| && pos[g] < |progs[g]|;
      var w := progs[g][pos[g]];
      ProgressStep(progs, pos, trace, mem.Length, g);
      PendingShrinks(progs, pos, g);
      WritesSnoc(trace, Event(g, w));
      RunSnoc(old(mem[..]), Writes(trace), w);
      Issue(mem, w);
      trace := trace + [Event(g, w)];
      pos := pos[g := pos[g] + 1];
    }
    forall g | 0 <= g < |progs|
      ensures Proj(trace, g) == progs[g]
    {
      assert progs[g][..pos[g]] == progs[g];
    }
  }
}
