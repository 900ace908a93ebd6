/** The five lattice models that the `makemodel!` macro generates (XSmallModel to
    XBigModel): they differ only in the side of their square lattice. The foreign
    physics of the `phases` crate is a `Physics` value; the system's state is
    represented by the number of updates applied to it. */
module Models {
  import opened Float32
  import opened Wrappers
  import opened Results
  import Sampling

  /** The five instantiations of the macro, with their lattice exponent `$pow`. */
  datatype ModelSize = XSmall | Small | Medium | Big | XBig

  function Exponent(size: ModelSize): nat
  {
    match size
    case XSmall => 4
    case Small => 5
    case Medium => 6
    case Big => 7
    case XBig => 8
  }

  function Pow2(n: nat): nat { if n == 0 then 1 else 2 * Pow2(n - 1) }

  /** The lattice side `$size`: 16, 32, 64, 128 or 256, always 2 to the exponent `$pow`. */
  function Side(size: ModelSize): (r: nat)
    ensures r == Pow2(Exponent(size))
    ensures 16 <= r <= 256
  {
    assert Pow2(4) == 16 by { assert Pow2(2) == 4; }
    assert Pow2(8) == 256 by { assert Pow2(6) == 64; }
    match size
    case XSmall => 16
    case Small => 32
    case Medium => 64
    case Big => 128
    case XBig => 256
  }

  /** The update rules the model can run. */
  datatype UpdateMethod = MonteCarloSwap | MoveVacancy

  function MethodName(m: UpdateMethod): string
  {
    match m
    case MonteCarloSwap => "monte_carlo_swap"
    case MoveVacancy => "move_vacancy"
  }

  /** The chosen rule, and whether the host was alerted about an unknown name. */
  datatype Selection = Selection(rule: UpdateMethod, alerted: bool)

  /** The method selection of `new`: an unknown name alerts and falls back to `move_vacancy`. */
  function SelectMethod(name: string): (r: Selection)
    ensures r.rule == MonteCarloSwap <==> name == MethodName(MonteCarloSwap)
    ensures r.rule == MoveVacancy <==> name != MethodName(MonteCarloSwap)
    ensures r.alerted <==> name != MethodName(MonteCarloSwap) && name != MethodName(MoveVacancy)
  {
    if name == "monte_carlo_swap" then Selection(MonteCarloSwap, false)
    else if name == "move_vacancy" then Selection(MoveVacancy, false)
    else Selection(MoveVacancy, true)
  }

  /** Each rule's own name selects it without an alert. */
  lemma SelectMethodName(m: UpdateMethod)
    ensures SelectMethod(MethodName(m)) == Selection(m, false)
  {
  }

  /** `make_energies`: the 2x2 interaction table [j00, j01, j10, j11], row-major,
      with j10 = j01. */
  function MakeEnergies(j00: F32, j01: F32, j11: F32): (r: seq<F32>)
    ensures |r| == 4 && r[0] == j00 && r[1] == j01 && r[2] == j01 && r[3] == j11
  {
    [j00, j01, j01, j11]
  }

  /** A symmetric 2x2 interaction table. */
  predicate Symmetric(e: seq<F32>) { |e| == 4 && e[1] == e[2] }

  /** `make_energies` produces exactly the symmetric tables. */
  lemma MakeEnergiesSymmetric(j00: F32, j01: F32, j11: F32, e: seq<F32>)
    ensures Symmetric(MakeEnergies(j00, j01, j11))
    ensures Symmetric(e) ==> e == MakeEnergies(e[0], e[1], e[3])
  {
  }

  /** u32 arithmetic, which wraps in the release build for WebAssembly. */
  function Wrap32(n: nat): (r: nat)
    ensures r < 0x1_0000_0000
    ensures n < 0x1_0000_0000 ==> r == n
  {
    n % 0x1_0000_0000
  }

  /** The foreign physics of the `phases` crate, as functions of the system's state.
      `accepts(m, n, beta)`: whether the update that the system receives as its n-th
      (counting from 0) is accepted under rule m at inverse temperature beta.
      `energy(n)`: the internal energy after n updates. `mean` and `variance`: what
      `StreamingStats` reports for the values added to it. */
  datatype Physics = Physics(
    accepts: (UpdateMethod, nat, F32) -> bool,
    energy: nat -> F32,
    mean: seq<F32> -> F32,
    variance: seq<F32> -> F32)

  /** A frame written to the GIF encoder: the lattice after that many updates. */
  datatype Frame = Frame(updates: nat)

  /** The number of accepted updates among the n updates after `start`. */
  function AcceptedCount(p: Physics, m: UpdateMethod, start: nat, n: nat, beta: F32): (r: nat)
    ensures r <= n
  {
    if n == 0 then 0
    else AcceptedCount(p, m, start, n - 1, beta) + (if p.accepts(m, start + n - 1, beta) then 1 else 0)
  }

  /** The energies added to the statistics: one after each of the n updates after `start`. */
  function EnergySamples(p: Physics, start: nat, n: nat): (r: seq<F32>)
    ensures |r| == n
  {
    if n == 0 then [] else EnergySamples(p, start, n - 1) + [p.energy(start + n)]
  }

  /** The stride of the sampling rule for a step budget; any stride samples
      nothing when there is no measurement update. */
  function StrideFor(totSteps: nat, budget: nat): (d: nat)
    requires Sampling.RuleDefined(totSteps, budget)
    ensures d >= 1
    ensures totSteps > 0 ==> d == totSteps / budget
  {
    if totSteps == 0 then 1 else Sampling.Stride(totSteps, budget)
  }

  /** The frames taken after the sampled measurement updates. */
  function FramesAt(start: nat, ks: seq<nat>): (r: seq<Frame>)
    ensures |r| == |ks|
  {
    if ks == [] then [] else FramesAt(start, ks[..|ks| - 1]) + [Frame(start + ks[|ks| - 1] + 1)]
  }

  /** The cluster counts of one species taken after the sampled measurement updates. */
  function CountsAt(atom: nat, start: nat, ks: seq<nat>): (r: ClusterDistribution)
    ensures |r| == |ks|
  {
    if ks == [] then [] else CountsAt(atom, start, ks[..|ks| - 1]) + [ClusterCount(atom, start + ks[|ks| - 1] + 1)]
  }

  /** The frames the loop has taken after its first n measurement updates, for the stride d. */
  function FramesTaken(start: nat, n: nat, d: nat): (r: seq<Frame>)
    requires d >= 1
    ensures |r| <= n
  {
    if n == 0 then []
    else FramesTaken(start, n - 1, d) + (if Sampling.Multiple(n - 1, d) then [Frame(start + n)] else [])
  }

  /** The cluster counts the loop has taken after its first n measurement updates. */
  function CountsTaken(atom: nat, start: nat, n: nat, d: nat): (r: ClusterDistribution)
    requires d >= 1
    ensures |r| <= n
  {
    if n == 0 then []
    else CountsTaken(atom, start, n - 1, d) + (if Sampling.Multiple(n - 1, d) then [ClusterCount(atom, start + n)] else [])
  }

  lemma FramesAtSnoc(start: nat, ks: seq<nat>, k: nat)
    ensures FramesAt(start, ks + [k]) == FramesAt(start, ks) + [Frame(start + k + 1)]
  {
    assert (ks + [k])[..|ks|] == ks;
  }

  lemma CountsAtSnoc(atom: nat, start: nat, ks: seq<nat>, k: nat)
    ensures CountsAt(atom, start, ks + [k]) == CountsAt(atom, start, ks) + [ClusterCount(atom, start + k + 1)]
  {
    assert (ks + [k])[..|ks|] == ks;
  }

  /** The loop takes exactly one frame after each sampled update, in step order. */
  lemma {:induction false} FramesTakenSampled(start: nat, n: nat, d: nat)
    requires d >= 1
    ensures FramesTaken(start, n, d) == FramesAt(start, Sampling.SampleSteps(n, d))
  {
    if n > 0 {
      FramesTakenSampled(start, n - 1, d);
      if Sampling.Multiple(n - 1, d) {
        assert Sampling.SampleSteps(n, d) == Sampling.SampleSteps(n - 1, d) + [n - 1];
        FramesAtSnoc(start, Sampling.SampleSteps(n - 1, d), n - 1);
      } else {
        assert Sampling.SampleSteps(n, d) == Sampling.SampleSteps(n - 1, d);
      }
    }
  }

  /** The loop takes exactly one cluster count after each sampled update, in step order. */
  lemma {:induction false} CountsTakenSampled(atom: nat, start: nat, n: nat, d: nat)
    requires d >= 1
    ensures CountsTaken(atom, start, n, d) == CountsAt(atom, start, Sampling.SampleSteps(n, d))
  {
    if n > 0 {
      CountsTakenSampled(atom, start, n - 1, d);
      if Sampling.Multiple(n - 1, d) {
        assert Sampling.SampleSteps(n, d) == Sampling.SampleSteps(n - 1, d) + [n - 1];
        CountsAtSnoc(atom, start, Sampling.SampleSteps(n - 1, d), n - 1);
      } else {
        assert Sampling.SampleSteps(n, d) == Sampling.SampleSteps(n - 1, d);
      }
    }
  }

  /** The acceptance rate `accepted as f32 / tot_steps as f32` lies in [0, 1] when
      there was a measurement update, and is NaN (0/0) when there was none. */
  lemma AcceptanceRateBounds(accepted: nat, totSteps: nat)
    requires accepted <= totSteps
    ensures var rate := Div(FromNat(accepted), FromNat(totSteps));
      && (totSteps > 0 ==> rate.Finite? && 0.0 <= rate.value <= 1.0)
      && (totSteps == 0 ==> rate == NaN)
  {
    if totSteps > 0 {
      var a, t := accepted as real, totSteps as real;
      assert a / t <= 1.0 by {
        assert a <= t;
        assert a / t * t == a;
      }
    }
  }
  /** One model instance: its lattice system (represented by the number of updates
      applied), the GIF encoder's frames, the result log and the archive buffer. */
  class Model {
    const size: ModelSize
    const rule: UpdateMethod
    const energies: seq<F32>
    const c0: F32
    const c1: F32
    const results: ModelResults
    var updates: nat
    var gifFrames: seq<Frame>
    var zipData: Option<seq<bv8>>
    /** The number of `run_at_temp` calls made so far. */
    ghost var completed: nat

    /** The six logged series are aligned and have one entry per completed call. */
    ghost predicate Valid()
      reads this, results
    {
      results.Aligned() && |results.temp| == completed
    }

    /** `new`: the concentrations are normalised, the update rule is selected by
        name, the log starts empty and there is no archive. */
    constructor (size: ModelSize, energies: seq<F32>, c0: F32, c1: F32, methodName: string,
                 logCapacity: nat, distrsPerTemp: nat)
      requires |energies| >= 4
      ensures Valid() && fresh(results) && completed == 0
      ensures this.size == size && rule == SelectMethod(methodName).rule
      ensures this.energies == energies[..4]
      ensures this.c0 == Div(c0, Add(c0, c1)) && this.c1 == Div(c1, Add(c0, c1))
      ensures results.temp == [] && results.entropy == [] && results.freeEnergy == []
      ensures results.distrsPerTemp == distrsPerTemp
      ensures updates == 0 && gifFrames == [] && zipData == None
    {
      this.size := size;
      this.rule := SelectMethod(methodName).rule;
      this.energies := [energies[0], energies[1], energies[2], energies[3]];
      this.c0 := Div(c0, Add(c0, c1));
      this.c1 := Div(c1, Add(c0, c1));
      results := new ModelResults(logCapacity, distrsPerTemp);
      updates, gifFrames, zipData := 0, [], None;
      completed := 0;
    }

    function Width(): (w: nat)
      ensures w == Side(size) && w == Height()
    {
      Side(size)
    }

    function Height(): (h: nat)
      ensures h == Side(size)
    {
      Side(size)
    }

    /** `tot_steps`: the number of measurement updates, a u32 product. */
    function TotSteps(measurementSteps: nat): nat
    {
      Wrap32(measurementSteps * Side(size) * Side(size))
    }

    /** `run_at_temp`: the system receives the equilibration updates and then the
        measurement updates; during measurement it counts the accepted updates,
        adds every energy to the statistics and samples frames and cluster counts
        by the rule `k % (tot_steps / budget) == 0`; finally each of the six series
        is pushed exactly once. */
    method RunAtTemp(p: Physics, equilibriumSteps: nat, measurementSteps: nat, temp: F32,
                     frames: nat, distrsPerTemp: nat)
      requires Valid()
      requires Sampling.RuleDefined(TotSteps(measurementSteps), frames)
      requires Sampling.RuleDefined(TotSteps(measurementSteps), distrsPerTemp)
      modifies this`updates, this`gifFrames, this`completed, results
      ensures Valid() && completed == old(completed) + 1
      ensures var eq, tot := Wrap32(equilibriumSteps * Side(size) * Side(size)), TotSteps(measurementSteps);
        var start, beta, cells := old(updates) + eq, Div(Finite(1.0), temp), FromNat(Side(size) * Side(size));
        && updates == start + tot
        && results.temp == old(results.temp) + [temp]
        && results.intEnergy == old(results.intEnergy) + [Div(p.mean(EnergySamples(p, start, tot)), cells)]
        && results.heatCapacity == old(results.heatCapacity)
             + [Div(Div(p.variance(EnergySamples(p, start, tot)), Mul(temp, temp)), cells)]
        && results.acceptanceRate == old(results.acceptanceRate)
             + [Div(FromNat(AcceptedCount(p, rule, start, tot, beta)), FromNat(tot))]
        && gifFrames == old(gifFrames) + FramesTaken(start, tot, StrideFor(tot, frames))
        && results.distr0 == old(results.distr0) + [CountsTaken(0, start, tot, StrideFor(tot, distrsPerTemp))]
        && results.distr1 == old(results.distr1) + [CountsTaken(1, start, tot, StrideFor(tot, distrsPerTemp))]
      ensures results.entropy == old(results.entropy) && results.freeEnergy == old(results.freeEnergy)
      ensures zipData == old(zipData)
    {
      results.PushTemp(temp);
      var beta := Div(Finite(1.0), temp);
      Equilibrate(p, Wrap32(equilibriumSteps * Side(size) * Side(size)), beta);
      var tot := TotSteps(measurementSteps);
      var accepted, energiesSeen, distr0, distr1 := Measure(p, beta, tot, frames, distrsPerTemp);
      PushStatistics(p, temp, energiesSeen, accepted, tot, distr0, distr1);
      completed := completed + 1;
    }

    /** The closing pushes of `run_at_temp`: the energy statistics per lattice site,
        the acceptance rate and the two cluster distributions. */
    method PushStatistics(p: Physics, temp: F32, energiesSeen: seq<F32>, accepted: nat, tot: nat,
                          distr0: ClusterDistribution, distr1: ClusterDistribution)
      modifies results`intEnergy, results`heatCapacity, results`acceptanceRate, results`distr0, results`distr1
      ensures var cells := FromNat(Side(size) * Side(size));
        && results.intEnergy == old(results.intEnergy) + [Div(p.mean(energiesSeen), cells)]
        && results.heatCapacity == old(results.heatCapacity)
             + [Div(Div(p.variance(energiesSeen), Mul(temp, temp)), cells)]
        && results.acceptanceRate == old(results.acceptanceRate) + [Div(FromNat(accepted), FromNat(tot))]
        && results.distr0 == old(results.distr0) + [distr0]
        && results.distr1 == old(results.distr1) + [distr1]
    {
      var cells := FromNat(Side(size) * Side(size));
      results.PushIntEnergy(Div(p.mean(energiesSeen), cells));
      results.PushHeatCapacity(Div(Div(p.variance(energiesSeen), Mul(temp, temp)), cells));
      results.PushAcceptanceRate(Div(FromNat(accepted), FromNat(tot)));
      results.PushDistr0(distr0);
      results.PushDistr1(distr1);
    }

    /** The equilibration loop of `run_at_temp`: its updates are not measured. */
    method Equilibrate(p: Physics, eq: nat, beta: F32)
      modifies this`updates
      ensures updates == old(updates) + eq
    {
      for j := 0 to eq
        invariant updates == old(updates) + j
      {
        var _ := p.accepts(rule, updates, beta);
        updates := updates + 1;
      }
    }

    /** The measurement loop of `run_at_temp`. */
    method Measure(p: Physics, beta: F32, tot: nat, frames: nat, distrsPerTemp: nat)
      returns (accepted: nat, energiesSeen: seq<F32>, distr0: ClusterDistribution, distr1: ClusterDistribution)
      requires Sampling.RuleDefined(tot, frames) && Sampling.RuleDefined(tot, distrsPerTemp)
      modifies this`updates, this`gifFrames
      ensures updates == old(updates) + tot
      ensures accepted == AcceptedCount(p, rule, old(updates), tot, beta)
      ensures energiesSeen == EnergySamples(p, old(updates), tot)
      ensures gifFrames == old(gifFrames) + FramesTaken(old(updates), tot, StrideFor(tot, frames))
      ensures distr0 == CountsTaken(0, old(updates), tot, StrideFor(tot, distrsPerTemp))
      ensures distr1 == CountsTaken(1, old(updates), tot, StrideFor(tot, distrsPerTemp))
    {
      energiesSeen, accepted, distr0, distr1 := [], 0, [], [];
      ghost var start := updates;
      // The stride `tot_steps / budget` is the same on every step; it is computed
      // once, and only when the loop runs.
      var dFrames, dDistrs := StrideFor(tot, frames), StrideFor(tot, distrsPerTemp);
      for k := 0 to tot
        invariant updates == start + k
        invariant accepted == AcceptedCount(p, rule, start, k, beta)
        invariant energiesSeen == EnergySamples(p, start, k)
        invariant gifFrames == old(gifFrames) + FramesTaken(start, k, dFrames)
        invariant distr0 == CountsTaken(0, start, k, dDistrs)
        invariant distr1 == CountsTaken(1, start, k, dDistrs)
      {
        accepted := accepted + if p.accepts(rule, updates, beta) then 1 else 0;
        updates := updates + 1;
        energiesSeen := energiesSeen + [p.energy(updates)];
        // `Multiple(k, d)` is `k % d == 0` (Sampling.MultipleIff).
        if Sampling.Multiple(k, dFrames) {
          gifFrames := gifFrames + [Frame(updates)];
        }
        if Sampling.Multiple(k, dDistrs) {
          distr0 := distr0 + [ClusterCount(0, updates)];
          distr1 := distr1 + [ClusterCount(1, updates)];
        }
      }
    }

    /** `do_data_analysis`: the ideal mixing entropy -(c0 ln c0 + c1 ln c1) seeds the
        entropy series, then the free energies are appended. */
    method DoDataAnalysis(ln: F32 -> F32)
      requires Valid()
      modifies results`entropy, results`freeEnergy
      ensures Valid()
      ensures var ideal := Neg(Add(Mul(ln(c0), c0), Mul(ln(c1), c1)));
        && results.entropy == EntropySeries(ideal, results.temp, results.heatCapacity)
        && |results.entropy| == Max1(completed)
        && results.freeEnergy == old(results.freeEnergy)
             + FreeEnergies(results.intEnergy, results.temp, results.entropy)
        && |results.freeEnergy| == |old(results.freeEnergy)| + completed
    {
      results.DoDataAnalysis(Neg(Add(Mul(ln(c0), c0), Mul(ln(c1), c1))));
    }

    /** `log_len`: the number of completed `run_at_temp` calls, as a u32. */
    function LogLen(): (n: nat)
      reads this, results
      requires Valid()
      ensures completed < 0x1_0000_0000 ==> n == completed
    {
      Wrap32(results.Len())
    }

    /** `make_zip`: the archive that the foreign zip writer `pack` makes from the CSV
        text (its other entries are not modelled) becomes the zip data. */
    method MakeZip(show: F32 -> string, pack: string -> seq<bv8>)
      requires results.CsvDefined()
      modifies this`zipData
      ensures zipData == Some(pack(Csv.CsvText(CsvTable(show, results.Columns(), |results.intEnergy|))))
    {
      var csv := results.MakeCsvBuffer(show);
      zipData := Some(pack(csv.value));
    }

    /** `get_zip_len`: defined only while there is zip data; None where the source panics. */
    function ZipLen(): (r: Option<nat>)
      reads this
      ensures r.Some? <==> zipData.Some?
      ensures r.Some? ==> r.value == |zipData.value|
    {
      match zipData
      case Some(data) => Some(|data|)
      case None => None
    }

    /** `get_zip_ptr`, as the bytes its pointer gives access to; None where the source panics. */
    function ZipBytes(): (r: Option<seq<bv8>>)
      reads this
      ensures r.Some? <==> zipData.Some?
      ensures r.Some? ==> r.value == zipData.value && |r.value| == ZipLen().value
    {
      match zipData
      case Some(data) => Some(data)
      case None => None
    }

    /** `destory_zip_data`: the archive buffer is released. */
    method DestroyZipData()
      modifies this`zipData
      ensures zipData == None
    {
      zipData := None;
    }
  }
}
