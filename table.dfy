/** The HTML amortization table of `generate_amortization_html`: a header
    row followed by one row per schedule entry, in schedule order. */
module AmortizationTable {
  import Money
  import Amortization

  /** One cell of an entry row, around its text. */
  function Cell(text: string): string
  {
    "\n            <td class=\"c5\">" + "<p class=\"c15\">"
      + "<span class=\"c6 c11\" style=\"font-weight:normal; font-size:9pt;\">" + text + "</span></p></td>"
  }

  /** A money cell: the formatted amount followed by the euro sign. */
  function EuroText(x: real): string
  {
    Money.FormatMoney(x) + " €"
  }

  /** The row fragment appended for one entry. */
  function RowHtml(e: Amortization.Entry): string
  {
    "\n        <tr class=\"c7\">"
      + Cell(Money.IntText(e.month))
      + Cell(EuroText(e.payment))
      + Cell(EuroText(e.interest))
      + Cell(EuroText(e.principal))
      + Cell(EuroText(e.balance))
      + "\n        </tr>\n        "
  }

  /** The strings of `parts` joined in order. */
  function Concat(parts: seq<string>): string
  {
    if parts == [] then "" else Concat(parts[..|parts| - 1]) + parts[|parts| - 1]
  }

  /** The fragment `render` gives each entry of `s`, in order. */
  function Fragments(s: seq<Amortization.Entry>, render: Amortization.Entry -> string): (fs: seq<string>)
    ensures |fs| == |s| && forall k :: 0 <= k < |s| ==> fs[k] == render(s[k])
  {
    seq(|s|, k requires 0 <= k < |s| => render(s[k]))
  }

  /** One cell of the header row, around its column title. */
  function HeaderCell(title: string): string
  {
    "\n        <td class=\"c4\">" + "<p class=\"c15\">" + "<span class=\"c6 c11\">" + title + "</span></p></td>"
  }

  /** The table around the rows: header row with the five column titles. */
  function TableHtml(rows: string): string
  {
    "\n    <table class=\"c18\" style=\"width:100%\">" + "\n      <tr class=\"c7\">"
      + HeaderCell("Mese")
      + HeaderCell("Pagamento")
      + HeaderCell("Interessi")
      + HeaderCell("Importo del prestito")
      + HeaderCell("Saldo residuo")
      + "\n      </tr>\n      " + rows + "\n    </table>\n    "
  }

  /** The table for `schedule`: one row fragment per entry, in order. */
  function Table(schedule: seq<Amortization.Entry>): string
  {
    TableHtml(Concat(Fragments(schedule, RowHtml)))
  }

  /** `generate_amortization_html(schedule)`: the rows are accumulated one
      entry at a time, then wrapped in the table. */
  method GenerateAmortizationHtml(schedule: seq<Amortization.Entry>) returns (table: string)
    ensures table == Table(schedule)
  {
    var rows := AccumulateRows(schedule, RowHtml);
    table := TableHtml(rows);
  }

  /** The `rows += ...` loop, for any row renderer. */
  method AccumulateRows(schedule: seq<Amortization.Entry>, render: Amortization.Entry -> string) returns (rows: string)
    ensures rows == Concat(Fragments(schedule, render))
  {
    rows := "";
    var i := 0;
    ghost var fs := Fragments(schedule, render);
    while i < |schedule|
      invariant 0 <= i <= |schedule|
      invariant rows == Concat(fs[..i])
    {
      assert fs[..i + 1][..i] == fs[..i];
      rows := rows + render(schedule[i]);
      i := i + 1;
    }
    assert fs[..i] == fs;
  }

  /** Joining distributes over concatenation of the parts. */
  lemma {:induction false} ConcatAppend(a: seq<string>, b: seq<string>)
    ensures Concat(a + b) == Concat(a) + Concat(b)
    decreases |b|
  {
    if b == [] {
      assert a + b == a;
    } else {
      var b' := b[..|b| - 1];
      assert (a + b)[..|a + b| - 1] == a + b';
      ConcatAppend(a, b');
    }
  }

  /** One row per entry, in order: the rows text is the fragments of the
      entries before `k`, then the fragment of entry `k`, then those of the
      entries after it. */
  lemma RowAt(s: seq<Amortization.Entry>, render: Amortization.Entry -> string, k: nat)
    requires k < |s|
    ensures Concat(Fragments(s, render)) ==
      Concat(Fragments(s[..k], render)) + render(s[k]) + Concat(Fragments(s[k + 1..], render))
  {
    var fs := Fragments(s, render);
    var row := render(s[k]);
    assert fs == Fragments(s[..k], render) + [row] + Fragments(s[k + 1..], render);
    ConcatAppend(Fragments(s[..k], render) + [row], Fragments(s[k + 1..], render));
    ConcatAppend(Fragments(s[..k], render), [row]);
    assert Concat([row]) == row by {
      assert [row][..0] == [];
    }
  }
}
