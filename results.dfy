/** The result log of one model (`ModelResults` in src/lib.rs): parallel
    per-temperature series that `run_at_temp` grows by one entry each, the derived
    entropy and free energy series, and the CSV export. */
module Results {
  import opened Float32
  import opened Wrappers
  import Csv

  /** One cluster count of the foreign `count_clusters`, identified by the species
      it counted and the lattice state it was taken from (the number of updates
      applied to the system so far). */
  datatype ClusterCount = ClusterCount(atom: nat, updates: nat)

  /** A `ClusterDistribution`: the cluster counts combined into it, in order. How
      the foreign `combine` merges them is not modelled. */
  type ClusterDistribution = seq<ClusterCount>

  function Max1(n: nat): nat { if n == 0 then 1 else n }

  /** The trapezoid average (C/T + C'/T') / 2 of heat capacity over temperature
      at a step (T, C) and its predecessor (T', C'). */
  function Avg(t: F32, t': F32, c: F32, c': F32): F32
  {
    Half(Add(Div(c, t), Div(c', t')))
  }

  /** One step of `calc_entropy`: add (T - T') times the average when the average
      is finite, otherwise carry the previous entropy. */
  function EntropyStep(last: F32, t: F32, t': F32, c: F32, c': F32): F32
  {
    var avg := Avg(t, t', c, c');
    if IsFinite(avg) then Add(last, Mul(Sub(t, t'), avg)) else last
  }

  /** The indices that `calc_entropy` reads exist. */
  predicate EntropyDefined(temp: seq<F32>, heatCapacity: seq<F32>)
  {
    |heatCapacity| <= 1 || |heatCapacity| <= |temp|
  }

  /** Entry k of the entropy series from entry k - 1. */
  function StepAt(last: F32, temp: seq<F32>, heatCapacity: seq<F32>, k: nat): F32
    requires 1 <= k < |heatCapacity| && k < |temp|
  {
    EntropyStep(last, temp[k], temp[k - 1], heatCapacity[k], heatCapacity[k - 1])
  }

  /** The first n entries of the entropy series. */
  function EntropyPrefix(idealEntropy: F32, temp: seq<F32>, heatCapacity: seq<F32>, n: nat): (r: seq<F32>)
    requires 1 <= n <= Max1(|heatCapacity|) && EntropyDefined(temp, heatCapacity)
    ensures |r| == n && r[0] == idealEntropy
  {
    if n == 1 then [idealEntropy]
    else
      var prev := EntropyPrefix(idealEntropy, temp, heatCapacity, n - 1);
      prev + [StepAt(prev[n - 2], temp, heatCapacity, n - 1)]
  }

  /** One more entry of the series is one step from the last one. */
  lemma EntropyPrefixSnoc(idealEntropy: F32, temp: seq<F32>, heatCapacity: seq<F32>, n: nat, last: F32)
    requires 1 <= n < |heatCapacity| && EntropyDefined(temp, heatCapacity)
    requires last == EntropyPrefix(idealEntropy, temp, heatCapacity, n)[n - 1]
    ensures EntropyPrefix(idealEntropy, temp, heatCapacity, n + 1)
         == EntropyPrefix(idealEntropy, temp, heatCapacity, n) + [StepAt(last, temp, heatCapacity, n)]
  {
  }

  lemma EntropyPrefixDrop(idealEntropy: F32, temp: seq<F32>, heatCapacity: seq<F32>, n: nat)
    requires 2 <= n <= Max1(|heatCapacity|) && EntropyDefined(temp, heatCapacity)
    ensures EntropyPrefix(idealEntropy, temp, heatCapacity, n)[..n - 1] == EntropyPrefix(idealEntropy, temp, heatCapacity, n - 1)
  {
    var prev := EntropyPrefix(idealEntropy, temp, heatCapacity, n - 1);
    assert EntropyPrefix(idealEntropy, temp, heatCapacity, n) == prev + [StepAt(prev[n - 2], temp, heatCapacity, n - 1)];
  }

  lemma {:induction false} EntropyPrefixPrefix(idealEntropy: F32, temp: seq<F32>, heatCapacity: seq<F32>, m: nat, n: nat)
    requires 1 <= m <= n <= Max1(|heatCapacity|) && EntropyDefined(temp, heatCapacity)
    ensures EntropyPrefix(idealEntropy, temp, heatCapacity, n)[..m] == EntropyPrefix(idealEntropy, temp, heatCapacity, m)
    decreases n
  {
    if m < n {
      EntropyPrefixPrefix(idealEntropy, temp, heatCapacity, m, n - 1);
      EntropyPrefixDrop(idealEntropy, temp, heatCapacity, n);
      var prev := EntropyPrefix(idealEntropy, temp, heatCapacity, n - 1);
      var full := EntropyPrefix(idealEntropy, temp, heatCapacity, n);
      assert full[..m] == full[..n - 1][..m];
    }
  }

  /** The entropy series that `calc_entropy` builds. */
  function EntropySeries(idealEntropy: F32, temp: seq<F32>, heatCapacity: seq<F32>): seq<F32>
    requires EntropyDefined(temp, heatCapacity)
  {
    EntropyPrefix(idealEntropy, temp, heatCapacity, Max1(|heatCapacity|))
  }

  /** The entropy series has max(1, |heat_capacity|) entries, starts at the ideal
      mixing entropy, and each later entry is one EntropyStep from its predecessor. */
  lemma EntropyShape(idealEntropy: F32, temp: seq<F32>, heatCapacity: seq<F32>)
    requires EntropyDefined(temp, heatCapacity)
    ensures var e := EntropySeries(idealEntropy, temp, heatCapacity);
      && |e| == Max1(|heatCapacity|)
      && e[0] == idealEntropy
      && forall i :: 1 <= i < |e| ==>
           e[i] == EntropyStep(e[i - 1], temp[i], temp[i - 1], heatCapacity[i], heatCapacity[i - 1])
  {
    var n := Max1(|heatCapacity|);
    var e := EntropySeries(idealEntropy, temp, heatCapacity);
    forall i | 1 <= i < |e|
      ensures e[i] == EntropyStep(e[i - 1], temp[i], temp[i - 1], heatCapacity[i], heatCapacity[i - 1])
    {
      EntropyPrefixPrefix(idealEntropy, temp, heatCapacity, i + 1, n);
      var p := EntropyPrefix(idealEntropy, temp, heatCapacity, i + 1);
      assert e[i] == e[..i + 1][i] == p[i];
      assert e[i - 1] == e[..i + 1][i - 1] == p[i - 1];
    }
  }

  /** Entry i of the series is one EntropyStep from entry i - 1. */
  lemma SeriesStep(idealEntropy: F32, temp: seq<F32>, heatCapacity: seq<F32>, i: nat)
    requires EntropyDefined(temp, heatCapacity) && 1 <= i < |heatCapacity|
    ensures var e := EntropySeries(idealEntropy, temp, heatCapacity);
      |e| == |heatCapacity|
      && e[i] == EntropyStep(e[i - 1], temp[i], temp[i - 1], heatCapacity[i], heatCapacity[i - 1])
  {
    EntropyShape(idealEntropy, temp, heatCapacity);
  }

  /** At a zero temperature both quotients divide by zero and the average is not
      finite, so the step carries the entropy over. */
  lemma StepAtZero(last: F32, t: F32, t': F32, c: F32, c': F32)
    requires t == Finite(0.0)
    ensures EntropyStep(last, t, t', c, c') == last
  {
    assert !IsFinite(Div(c, t));
  }

  /** At a step whose temperature is zero (the last step of a schedule that cools
      to zero) the entropy is carried over. */
  lemma EntropyAtZeroTemperature(idealEntropy: F32, temp: seq<F32>, heatCapacity: seq<F32>, i: nat)
    requires EntropyDefined(temp, heatCapacity) && 1 <= i < |heatCapacity|
    requires temp[i] == Finite(0.0)
    ensures var e := EntropySeries(idealEntropy, temp, heatCapacity);
      e[i] == e[i - 1]
  {
    SeriesStep(idealEntropy, temp, heatCapacity, i);
    var e := EntropySeries(idealEntropy, temp, heatCapacity);
    StepAtZero(e[i - 1], temp[i], temp[i - 1], heatCapacity[i], heatCapacity[i - 1]);
  }

  /** A step from a finite entropy at finite nonzero temperatures with finite heat
      capacities adds (T - T') times the trapezoid average. */
  lemma StepFormula(last: F32, t: F32, t': F32, c: F32, c': F32)
    requires last.Finite? && t.Finite? && t'.Finite? && c.Finite? && c'.Finite?
    requires t.value != 0.0 && t'.value != 0.0
    ensures var s := EntropyStep(last, t, t', c, c');
      s.Finite? && s.value == last.value + (t.value - t'.value) * ((c.value / t.value + c'.value / t'.value) / 2.0)
  {
  }

  /** With finite nonzero temperatures and finite heat capacities every step
      integrates: S[i] = S[i-1] + (T[i] - T[i-1]) * (C[i]/T[i] + C[i-1]/T[i-1]) / 2. */
  lemma EntropyIntegrates(idealEntropy: F32, temp: seq<F32>, heatCapacity: seq<F32>, i: nat)
    requires EntropyDefined(temp, heatCapacity) && 1 <= i < |heatCapacity|
    requires temp[i].Finite? && temp[i].value != 0.0 && temp[i - 1].Finite? && temp[i - 1].value != 0.0
    requires heatCapacity[i].Finite? && heatCapacity[i - 1].Finite?
    ensures var e := EntropySeries(idealEntropy, temp, heatCapacity);
      var t, t', c, c' := temp[i].value, temp[i - 1].value, heatCapacity[i].value, heatCapacity[i - 1].value;
      e[i - 1].Finite? ==>
        e[i].Finite? && e[i].value == e[i - 1].value + (t - t') * ((c / t + c' / t') / 2.0)
  {
    SeriesStep(idealEntropy, temp, heatCapacity, i);
    var e := EntropySeries(idealEntropy, temp, heatCapacity);
    if e[i - 1].Finite? {
      StepFormula(e[i - 1], temp[i], temp[i - 1], heatCapacity[i], heatCapacity[i - 1]);
    }
  }

  /** Halving is the division by 2.0 of the source. */
  lemma HalfIsDiv(a: F32)
    ensures Half(a) == Div(a, Finite(2.0))
  {
  }

  /** The free energies F = U - T * S that `calc_free_energy` appends, one per
      internal-energy entry. */
  function FreeEnergies(intEnergy: seq<F32>, temp: seq<F32>, entropy: seq<F32>): (r: seq<F32>)
    requires |intEnergy| <= |temp| && |intEnergy| <= |entropy|
    ensures |r| == |intEnergy|
  {
    seq(|intEnergy|, i requires 0 <= i < |intEnergy| => Sub(intEnergy[i], Mul(temp[i], entropy[i])))
  }

  /** Where the values are finite, F + T * S gives the internal energy back. */
  lemma FreeEnergyInverse(intEnergy: seq<F32>, temp: seq<F32>, entropy: seq<F32>, i: nat)
    requires |intEnergy| <= |temp| && |intEnergy| <= |entropy| && i < |intEnergy|
    requires intEnergy[i].Finite? && temp[i].Finite? && entropy[i].Finite?
    ensures var f := FreeEnergies(intEnergy, temp, entropy)[i];
      f.Finite? && f.value + temp[i].value * entropy[i].value == intEnergy[i].value
  {
  }

  /** The fields of the first n CSV data lines: line i formats entry i of each
      column with `show` (f32's `Display`). */
  function CsvTable(show: F32 -> string, columns: seq<seq<F32>>, n: nat): (r: seq<seq<string>>)
    requires forall c :: 0 <= c < |columns| ==> n <= |columns[c]|
    ensures |r| == n
    ensures forall i :: 0 <= i < n ==> |r[i]| == |columns|
  {
    seq(n, i requires 0 <= i < n =>
      seq(|columns|, c requires 0 <= c < |columns| => show(columns[c][i])))
  }

  /** The table for n + 1 entries extends the one for n by the row of entry n. */
  lemma CsvTableSnoc(show: F32 -> string, columns: seq<seq<F32>>, n: nat, fields: seq<string>)
    requires forall c :: 0 <= c < |columns| ==> n < |columns[c]|
    requires |fields| == |columns| && forall c :: 0 <= c < |columns| ==> fields[c] == show(columns[c][n])
    ensures CsvTable(show, columns, n + 1) == CsvTable(show, columns, n) + [fields]
  {
    var t, t' := CsvTable(show, columns, n), CsvTable(show, columns, n + 1);
    assert t'[n] == fields;
    assert forall i :: 0 <= i < n ==> t'[i] == t[i];
  }

  /** With an f32 formatting that writes no comma and no newline, the CSV text has
      the five header lines, one line per logged step and the empty rest after the
      last newline, and every data line holds its six fields and a trailing comma. */
  lemma CsvLayout(show: F32 -> string, columns: seq<seq<F32>>, n: nat)
    requires forall x :: Csv.Free(show(x), ',') && Csv.Free(show(x), '\n')
    requires |columns| == Csv.FieldCount && forall c :: 0 <= c < |columns| ==> n <= |columns[c]|
    ensures var table := CsvTable(show, columns, n);
      && Csv.Split(Csv.CsvText(table), '\n') == Csv.HeaderLines + Csv.RowLines(table) + [""]
      && |Csv.Split(Csv.CsvText(table), '\n')| == 5 + n + 1
      && forall i :: 0 <= i < n ==>
           |table[i]| == 6 && Csv.Split(Csv.RowLines(table)[i], ',') == table[i] + [""]
  {
    var table := CsvTable(show, columns, n);
    assert Csv.PlainFields(table);
    Csv.CsvLines(table);
    forall i | 0 <= i < n ensures Csv.Split(Csv.RowLines(table)[i], ',') == table[i] + [""] {
      Csv.RowFields(table, i);
    }
  }

  /** Removes the last two bytes (a comma and its newline, when present) and ends the
      buffer with a newline again. Popping an empty buffer does nothing. */
  method RemoveLastComma(buf: string) returns (r: string)
    ensures |buf| >= 2 ==> |r| == |buf| - 1 && r == buf[..|buf| - 2] + "\n"
    ensures |buf| < 2 ==> r == "\n"
    ensures forall p :: buf == p + ",\n" ==> r == p + "\n"
  {
    r := buf;
    if |r| > 0 { r := r[..|r| - 1]; }
    if |r| > 0 { r := r[..|r| - 1]; }
    r := r + "\n";
  }

  class ModelResults {
    var temp: seq<F32>
    var intEnergy: seq<F32>
    var heatCapacity: seq<F32>
    var acceptanceRate: seq<F32>
    var entropy: seq<F32>
    var freeEnergy: seq<F32>
    var distr0: seq<ClusterDistribution>
    var distr1: seq<ClusterDistribution>
    const distrsPerTemp: nat

    /** The six series that `run_at_temp` grows all have the same length. */
    predicate Aligned()
      reads this
    {
      |intEnergy| == |temp| && |heatCapacity| == |temp| && |acceptanceRate| == |temp|
      && |distr0| == |temp| && |distr1| == |temp|
    }

    /** All series start empty; the capacity only reserves memory. */
    constructor (capacity: nat, distrsPerTemp: nat)
      ensures temp == [] && intEnergy == [] && heatCapacity == [] && acceptanceRate == []
      ensures entropy == [] && freeEnergy == [] && distr0 == [] && distr1 == []
      ensures this.distrsPerTemp == distrsPerTemp
      ensures Aligned()
    {
      temp, intEnergy, heatCapacity, acceptanceRate := [], [], [], [];
      entropy, freeEnergy, distr0, distr1 := [], [], [], [];
      this.distrsPerTemp := distrsPerTemp;
    }

    method PushTemp(value: F32)
      modifies this`temp
      ensures temp == old(temp) + [value]
    {
      temp := temp + [value];
    }

    method PushIntEnergy(value: F32)
      modifies this`intEnergy
      ensures intEnergy == old(intEnergy) + [value]
    {
      intEnergy := intEnergy + [value];
    }

    method PushHeatCapacity(value: F32)
      modifies this`heatCapacity
      ensures heatCapacity == old(heatCapacity) + [value]
    {
      heatCapacity := heatCapacity + [value];
    }

    method PushAcceptanceRate(value: F32)
      modifies this`acceptanceRate
      ensures acceptanceRate == old(acceptanceRate) + [value]
    {
      acceptanceRate := acceptanceRate + [value];
    }

    method PushDistr0(value: ClusterDistribution)
      modifies this`distr0
      ensures distr0 == old(distr0) + [value]
    {
      distr0 := distr0 + [value];
    }

    method PushDistr1(value: ClusterDistribution)
      modifies this`distr1
      ensures distr1 == old(distr1) + [value]
    {
      distr1 := distr1 + [value];
    }

    /** `len` as a u32: the length of the temperature series. */
    function Len(): (n: nat)
      reads this
      ensures n < 0x1_0000_0000
      ensures |temp| < 0x1_0000_0000 ==> n == |temp|
    {
      |temp| % 0x1_0000_0000
    }

    /** `calc_entropy` rebuilds the entropy series from scratch, whatever it held. */
    method CalcEntropy(idealEntropy: F32)
      requires EntropyDefined(temp, heatCapacity)
      modifies this`entropy
      ensures entropy == EntropySeries(idealEntropy, temp, heatCapacity)
    {
      if entropy != [] {
        entropy := [];
      }
      entropy := entropy + [idealEntropy];
      var i := 1;
      while i < |heatCapacity|
        invariant 1 <= i <= Max1(|heatCapacity|)
        invariant entropy == EntropyPrefix(idealEntropy, temp, heatCapacity, i)
      {
        AppendEntropy(idealEntropy, i);
        i := i + 1;
      }
    }

    /** The body of `calc_entropy`'s loop: one more entry, one step from the last. */
    method AppendEntropy(idealEntropy: F32, i: nat)
      requires 1 <= i < |heatCapacity| && EntropyDefined(temp, heatCapacity)
      requires entropy == EntropyPrefix(idealEntropy, temp, heatCapacity, i)
      modifies this`entropy
      ensures entropy == EntropyPrefix(idealEntropy, temp, heatCapacity, i + 1)
    {
      var last := entropy[|entropy| - 1];
      EntropyPrefixSnoc(idealEntropy, temp, heatCapacity, i, last);
      var next := NextEntropy(last, i);
      entropy := entropy + [next];
    }

    /** One iteration of `calc_entropy`'s loop: integrate the trapezoid average when
        it is finite, otherwise carry the last entropy. */
    method NextEntropy(last: F32, i: nat) returns (next: F32)
      requires 1 <= i < |heatCapacity| && i < |temp|
      ensures next == StepAt(last, temp, heatCapacity, i)
    {
      var avg := Avg(temp[i], temp[i - 1], heatCapacity[i], heatCapacity[i - 1]);
      if IsFinite(avg) {
        next := Add(last, Mul(Sub(temp[i], temp[i - 1]), avg));
      } else {
        next := last;
      }
    }

    /** `calc_free_energy` appends to the free energy series and never clears it. */
    method CalcFreeEnergy()
      requires |intEnergy| <= |temp| && |intEnergy| <= |entropy|
      modifies this`freeEnergy
      ensures freeEnergy == old(freeEnergy) + FreeEnergies(intEnergy, temp, entropy)
    {
      var i := 0;
      while i < |intEnergy|
        invariant 0 <= i <= |intEnergy|
        invariant freeEnergy == old(freeEnergy) + FreeEnergies(intEnergy[..i], temp, entropy)
      {
        freeEnergy := freeEnergy + [Sub(intEnergy[i], Mul(temp[i], entropy[i]))];
        i := i + 1;
        assert FreeEnergies(intEnergy[..i], temp, entropy)
          == FreeEnergies(intEnergy[..i - 1], temp, entropy) + [Sub(intEnergy[i - 1], Mul(temp[i - 1], entropy[i - 1]))];
      }
      assert intEnergy[..i] == intEnergy;
    }

    /** The index bounds under which `do_data_analysis` does not panic. */
    predicate AnalysisDefined()
      reads this
    {
      EntropyDefined(temp, heatCapacity) && |intEnergy| <= |temp| && |intEnergy| <= Max1(|heatCapacity|)
    }

    /** The entropy is rebuilt and one free energy per internal energy is appended;
        the cluster statistics of the foreign `disentangle` are not modelled. */
    method DoDataAnalysis(idealEntropy: F32)
      requires AnalysisDefined()
      modifies this`entropy, this`freeEnergy
      ensures entropy == EntropySeries(idealEntropy, temp, heatCapacity)
      ensures |entropy| == Max1(|heatCapacity|)
      ensures freeEnergy == old(freeEnergy) + FreeEnergies(intEnergy, temp, entropy)
      ensures |freeEnergy| == |old(freeEnergy)| + |intEnergy|
    {
      CalcEntropy(idealEntropy);
      EntropyShape(idealEntropy, temp, heatCapacity);
      CalcFreeEnergy();
    }

    /** Every series that a CSV line reads has an entry for each internal energy. */
    predicate CsvDefined()
      reads this
    {
      |intEnergy| <= |temp| && |intEnergy| <= |heatCapacity| && |intEnergy| <= |acceptanceRate|
      && |intEnergy| <= |entropy| && |intEnergy| <= |freeEnergy|
    }

    /** The series a CSV line reads, in the order of its fields. */
    function Columns(): (r: seq<seq<F32>>)
      reads this
      ensures |r| == Csv.FieldCount
    {
      [temp, intEnergy, heatCapacity, acceptanceRate, entropy, freeEnergy]
    }

    /** `make_csv_buffer`: the header and one line per internal-energy entry; None
        where the source indexes past the end of a series and panics (before
        `do_data_analysis` has filled entropy and free energy). */
    method MakeCsvBuffer(show: F32 -> string) returns (r: Option<string>)
      ensures r.Some? <==> CsvDefined()
      ensures r.Some? ==> r.value == Csv.CsvText(CsvTable(show, Columns(), |intEnergy|))
    {
      var csv := Csv.Terminated(Csv.HeaderLines, '\n');
      var cols := Columns();
      assert CsvTable(show, cols, 0) == [];
      assert Csv.HeaderLines + Csv.RowLines([]) == Csv.HeaderLines;
      var i := 0;
      while i < |intEnergy|
        invariant 0 <= i <= |intEnergy|
        invariant i <= |temp| && i <= |heatCapacity| && i <= |acceptanceRate|
        invariant i <= |entropy| && i <= |freeEnergy|
        invariant csv == Csv.CsvText(CsvTable(show, cols, i))
      {
        if i >= |temp| || i >= |heatCapacity| || i >= |acceptanceRate| || i >= |entropy| || i >= |freeEnergy| {
          return None;
        }
        var fields := [show(temp[i]), show(intEnergy[i]), show(heatCapacity[i]),
                       show(acceptanceRate[i]), show(entropy[i]), show(freeEnergy[i])];
        CsvTableSnoc(show, cols, i, fields);
        Csv.CsvTextSnoc(CsvTable(show, cols, i), fields);
        csv := csv + Csv.Row(fields);
        i := i + 1;
      }
      r := Some(csv);
    }
  }
}
