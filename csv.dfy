/** The text layout of `model_output.csv`: five fixed header lines, then one line
    per logged temperature step holding six fields, each followed by a comma. */
module Csv {

  /** The header lines, each written with `writeln!`. The literals are cut into
      short pieces only so that the verifier can see that none holds a newline. */
  const HeaderLines: seq<string> := [Header0, Header1, Header2, Header3, Header4]
  const Header0: string :=
    "This fil" + "e was ge" + "nerated " + "as outpu" + "t to The" + "rmodynam"
      + "ic Model" + "s https:" + "//max-ka" + "y.github" + ".io/ther" + "mo-onlin"
      + "e/"
  const Header1: string :=
    "All exte" + "nsive va" + "riable a" + "re divid" + "ed by th" + "e number"
      + " of latt" + "ice site" + "s."
  const Header2: string :=
    "Code for" + " website" + ": https:" + "//github" + ".com/max" + "-kay/the"
      + "rmo-onli" + "ne"
  const Header3: string :=
    "Rust lib" + "rary use" + "d for th" + "e simula" + "tion: ht" + "tps://gi"
      + "thub.com" + "/max-kay" + "/phases"
  const Header4: string :=
    "temperat" + "ure,inte" + "rnal_ene" + "rgy,heat" + "_capacit" + "y,accept"
      + "ance_rat" + "e,entrop" + "y,free_e" + "nergy"

  /** The number of fields of a data line. */
  const FieldCount: nat := 6

  /** Each piece followed by the separator `c`. */
  function Terminated(pieces: seq<string>, c: char): (r: string)
  {
    if pieces == [] then [] else pieces[0] + [c] + Terminated(pieces[1..], c)
  }

  /** The pieces of `s` between occurrences of `c`; never empty. */
  function Split(s: string, c: char): (r: seq<string>)
    ensures |r| >= 1
  {
    if s == [] then [""]
    else
      var rest := Split(s[1..], c);
      if s[0] == c then [""] + rest else [[s[0]] + rest[0]] + rest[1..]
  }

  /** One data line with its newline: `f1,f2,f3,f4,f5,f6,` then `\n`. */
  function Row(fields: seq<string>): string
  {
    Terminated(fields, ',') + "\n"
  }

  /** The data lines without their newlines. */
  function RowLines(table: seq<seq<string>>): (r: seq<string>)
    ensures |r| == |table|
  {
    seq(|table|, i requires 0 <= i < |table| => Terminated(table[i], ','))
  }

  /** The whole buffer: the header lines, then one line per row of the table. */
  function CsvText(table: seq<seq<string>>): string
  {
    Terminated(HeaderLines + RowLines(table), '\n')
  }

  predicate Free(s: string, c: char) { c !in s }

  /** Fields that the f32 formatting produces contain no separator. */
  predicate PlainFields(table: seq<seq<string>>)
  {
    forall i, j :: 0 <= i < |table| && 0 <= j < |table[i]| ==>
      Free(table[i][j], ',') && Free(table[i][j], '\n')
  }

  lemma {:induction false} SplitAfter(a: string, c: char, b: string)
    requires Free(a, c)
    ensures Split(a + [c] + b, c) == [a] + Split(b, c)
  {
    if a == [] {
      assert a + [c] + b == [c] + b;
      assert ([c] + b)[1..] == b;
    } else {
      assert (a + [c] + b)[1..] == a[1..] + [c] + b;
      SplitAfter(a[1..], c, b);
      assert [a[0]] + a[1..] == a;
    }
  }

  /** Splitting separator-terminated pieces gives the pieces back, and an empty
      last piece after the final separator. */
  lemma {:induction false} SplitTerminated(pieces: seq<string>, c: char)
    requires forall i :: 0 <= i < |pieces| ==> Free(pieces[i], c)
    ensures Split(Terminated(pieces, c), c) == pieces + [""]
  {
    if pieces != [] {
      SplitTerminated(pieces[1..], c);
      SplitAfter(pieces[0], c, Terminated(pieces[1..], c));
      assert [pieces[0]] + pieces[1..] == pieces;
    }
  }

  lemma {:induction false} TerminatedFree(pieces: seq<string>, c: char, d: char)
    requires c != d
    requires forall i :: 0 <= i < |pieces| ==> Free(pieces[i], d)
    ensures Free(Terminated(pieces, c), d)
  {
    if pieces != [] {
      TerminatedFree(pieces[1..], c, d);
      var t := Terminated(pieces[1..], c);
      assert Terminated(pieces, c) == pieces[0] + [c] + t;
      forall k | 0 <= k < |pieces[0] + [c] + t| ensures (pieces[0] + [c] + t)[k] != d {
        if k < |pieces[0]| {
          assert (pieces[0] + [c] + t)[k] == pieces[0][k];
        } else if k > |pieces[0]| {
          assert (pieces[0] + [c] + t)[k] == t[k - |pieces[0]| - 1];
        }
      }
    }
  }

  lemma HeaderPlain()
    ensures forall i :: 0 <= i < |HeaderLines| ==> Free(HeaderLines[i], '\n')
  {
    HeaderPlain0();
    HeaderPlain1();
    HeaderPlain2();
    HeaderPlain3();
    HeaderPlain4();
  }
  lemma HeaderPlain0() ensures Free(Header0, '\n') { }
  lemma HeaderPlain1() ensures Free(Header1, '\n') { }
  lemma HeaderPlain2() ensures Free(Header2, '\n') { }
  lemma HeaderPlain3() ensures Free(Header3, '\n') { }
  lemma HeaderPlain4() ensures Free(Header4, '\n') { }

  /** The buffer's lines are the five header lines, then one line per row, then
      the empty remainder after the final newline. */
  lemma CsvLines(table: seq<seq<string>>)
    requires PlainFields(table)
    ensures Split(CsvText(table), '\n') == HeaderLines + RowLines(table) + [""]
    ensures |Split(CsvText(table), '\n')| == 5 + |table| + 1
  {
    var lines := HeaderLines + RowLines(table);
    forall i | 0 <= i < |lines| ensures Free(lines[i], '\n') {
      if i >= |HeaderLines| {
        var row := table[i - |HeaderLines|];
        TerminatedFree(row, ',', '\n');
      } else {
        HeaderPlain();
      }
    }
    SplitTerminated(lines, '\n');
  }

  /** Each data line splits at its commas into its fields and a final empty piece,
      so a six-field row holds six comma-separated fields and a trailing comma. */
  lemma RowFields(table: seq<seq<string>>, i: nat)
    requires PlainFields(table) && i < |table|
    ensures Split(RowLines(table)[i], ',') == table[i] + [""]
  {
    SplitTerminated(table[i], ',');
  }

  /** Appending a row's line extends the buffer, as each loop iteration's `writeln!` does. */
  lemma {:induction false} CsvTextSnoc(table: seq<seq<string>>, fields: seq<string>)
    ensures CsvText(table + [fields]) == CsvText(table) + Row(fields)
  {
    assert RowLines(table + [fields]) == RowLines(table) + [Terminated(fields, ',')];
    TerminatedAppend(HeaderLines + RowLines(table), Terminated(fields, ','), '\n');
    assert HeaderLines + RowLines(table + [fields]) == (HeaderLines + RowLines(table)) + [Terminated(fields, ',')];
  }

  lemma {:induction false} TerminatedAppend(pieces: seq<string>, last: string, c: char)
    ensures Terminated(pieces + [last], c) == Terminated(pieces, c) + last + [c]
  {
    if pieces == [] {
      assert [] + [last] == [last];
      assert [last][1..] == [];
    } else {
      assert (pieces + [last])[1..] == pieces[1..] + [last];
      TerminatedAppend(pieces[1..], last, c);
    }
  }
}
