/** Template assembly for the four documents (contratto, garanzia, carta,
    approvazione): the request data, the per-document replacement lists of
    `_generate_pdf_with_images`, the amortization table of
    `generate_amortization_html`, and the preparation done by the
    `generate_*_pdf` entry points before substitution. */
module Documents {
  import opened Wrappers
  import Money
  import Amortization
  import Substitution

  datatype DocType = Contratto | Garanzia | Carta | Approvazione

  /** The `data` dictionary; an absent key is `None`. */
  datatype Request = Request(
    name: Option<string>,
    amount: Option<real>,
    tan: Option<real>,
    taeg: Option<real>,
    duration: Option<int>,
    payment: Option<real>,
    amortizationTable: Option<string>)

  /** `generate_garanzia_pdf(name)` builds `{'name': name}`. */
  function GuaranteeRequest(name: string): Request
  {
    Request(Some(name), None, None, None, None, None, None)
  }

  /** The keys of the request dictionary the replacement lists read. */
  datatype Key = Name | Amount | Tan | Taeg | Duration | Payment

  function KeyName(k: Key): string
  {
    match k
    case Name => "name"
    case Amount => "amount"
    case Tan => "tan"
    case Taeg => "taeg"
    case Duration => "duration"
    case Payment => "payment"
  }

  predicate Has(data: Request, k: Key)
  {
    match k
    case Name => data.name.Some?
    case Amount => data.amount.Some?
    case Tan => data.tan.Some?
    case Taeg => data.taeg.Some?
    case Duration => data.duration.Some?
    case Payment => data.payment.Some?
  }

  /** `data[key]`: the value, or the KeyError naming the key. */
  function Need<T>(o: Option<T>, k: Key): (r: Result<T>)
    ensures r.Ok? <==> o.Some?
    ensures r.Ok? ==> r.value == o.value
    ensures r.Err? ==> r.error == MissingField(KeyName(k))
  {
    match o
    case Some(v) => Ok(v)
    case None => Err(MissingField(KeyName(k)))
  }

  /** The keys each replacement list reads, in Python evaluation order. */
  function RequiredKeys(doc: DocType): seq<Key>
  {
    match doc
    case Contratto => [Tan, Payment, Duration, Amount, Name, Taeg]
    case Carta => [Name, Amount, Tan, Duration, Payment]
    case Garanzia => [Name]
    case Approvazione => [Name, Amount, Tan]
  }

  /** Python evaluates the `data[key]` lookups of a list in order: the
      index in `keys` of the first one that raises, if any. */
  function FirstMissing(data: Request, keys: seq<Key>, from: nat := 0): (r: Option<nat>)
    requires from <= |keys|
    ensures r.None? <==> forall j :: from <= j < |keys| ==> Has(data, keys[j])
    ensures r.Some? ==>
      && from <= r.value < |keys| && !Has(data, keys[r.value])
      && forall j :: from <= j < r.value ==> Has(data, keys[j])
    decreases |keys| - from
  {
    if from == |keys| then None
    else if !Has(data, keys[from]) then Some(from)
    else FirstMissing(data, keys, from + 1)
  }

  /** The `old` strings of each replacement list, in order. */
  function Tokens(doc: DocType): seq<string>
  {
    match doc
    case Contratto =>
      ["{{AMORTIZATION_TABLE}}", "XXX", "XXX", "XXX", "XXX", "XXX", "XXX", "11/06/2025", "XXX",
       "PAYMENT_SCHEDULE_MONTHLY_RATE", "PAYMENT_SCHEDULE_MONTHLY_PAYMENT",
       "PAYMENT_SCHEDULE_TOTAL_PAYMENTS", "PAYMENT_SCHEDULE_OVERPAYMENT"]
    case Carta => ["XXX", "XXX", "XXX", "XXX", "XXX"]
    case Garanzia => ["XXX"]
    case Approvazione => ["XXX", "XXX", "XXX"]
  }

  /** Where the contract's list holds its c-th `XXX`: the name, amount,
      TAN, TAEG, duration and payment at 1 to 6, then the name again in the
      signature at 8. */
  function XxxPosition(c: nat): nat
  {
    if c < 6 then c + 1 else 8
  }

  /** The layout of the contract's list: thirteen tokens, `XXX` exactly at
      positions 1 to 6 and 8. */
  predicate ContractLayout(s: seq<string>)
  {
    |s| == 13 && forall j :: 0 <= j < 13 ==> (s[j] == "XXX" <==> 1 <= j <= 6 || j == 8)
  }

  /** In that layout the `XxxPosition(c)`-th token is the c-th `XXX`. */
  lemma {:induction false} XxxRank(s: seq<string>, c: nat)
    requires ContractLayout(s) && c < 7
    ensures s[XxxPosition(c)] == "XXX" && multiset(s[..XxxPosition(c)])["XXX"] == c
    decreases c
  {
    if c == 0 {
      assert s[..1] == [s[0]];
    } else if c < 6 {
      XxxRank(s, c - 1);
      Substitution.PrefixCount(s, c, "XXX");
    } else {
      XxxRank(s, 5);
      Substitution.PrefixCount(s, 6, "XXX");
      Substitution.PrefixCount(s, 7, "XXX");
    }
  }

  /** ... and `XXX` occurs seven times in all. */
  lemma XxxTotal(s: seq<string>)
    requires ContractLayout(s)
    ensures multiset(s)["XXX"] == 7
  {
    XxxRank(s, 6);
    Substitution.PrefixCount(s, 8, "XXX");
    assert s == s[..9] + s[9..];
    assert "XXX" !in s[9..];
  }

  /** The contract's list has that layout, and each of its other tokens
      differs from every other entry. */
  lemma ContractTokens()
    ensures ContractLayout(Tokens(Contratto))
    ensures forall i, j :: 0 <= i < 13 && 0 <= j < 13 && i != j && Tokens(Contratto)[i] != "XXX" ==>
      Tokens(Contratto)[i] != Tokens(Contratto)[j]
  {
    var s := Tokens(Contratto);
    assert forall j :: 0 <= j < 13 ==> |s[j]| == [22, 3, 3, 3, 3, 3, 3, 10, 3, 29, 32, 31, 28][j];
  }

  /** The same facts about a list whose tokens are the contract's. */
  lemma ContractPairs(pairs: seq<(string, string)>)
    requires Substitution.Olds(pairs) == Tokens(Contratto)
    ensures ContractLayout(Substitution.Olds(pairs))
    ensures forall i, j :: 0 <= i < |pairs| && 0 <= j < |pairs| && i != j && pairs[i].0 != "XXX" ==>
      pairs[i].0 != pairs[j].0
  {
    ContractTokens();
  }

  /** Where each slot of a template laid out with `slots` finds its value
      in the contract's list `pairs`: the c-th `XXX` slot receives the value
      of the c-th `XXX` pair, and a slot of any other token the value of that
      token's one pair. */
  ghost predicate ContractSlots(slots: seq<string>, pairs: seq<(string, string)>)
    requires multiset(slots) == multiset(Substitution.Olds(pairs))
  {
    && (forall k :: 0 <= k < |slots| && slots[k] == "XXX" ==>
          Substitution.Rank(slots, k) < 7 && XxxPosition(Substitution.Rank(slots, k)) < |pairs|
          && Substitution.Filled(slots, pairs)[k] == pairs[XxxPosition(Substitution.Rank(slots, k))].1)
    && (forall k, i :: 0 <= k < |slots| && 0 <= i < |pairs| && slots[k] == pairs[i].0 != "XXX" ==>
          Substitution.Filled(slots, pairs)[k] == pairs[i].1)
  }

  /** With the contract's layout every slot's value is the one
      `ContractSlots` names. */
  lemma ContractRanks(slots: seq<string>, pairs: seq<(string, string)>)
    requires multiset(slots) == multiset(Substitution.Olds(pairs))
    requires ContractLayout(Substitution.Olds(pairs))
    requires forall i, j :: 0 <= i < |pairs| && 0 <= j < |pairs| && i != j && pairs[i].0 != "XXX" ==>
      pairs[i].0 != pairs[j].0
    ensures ContractSlots(slots, pairs)
  {
    var toks := Substitution.Olds(pairs);
    XxxTotal(toks);
    var filled := Substitution.Filled(slots, pairs);
    forall k | 0 <= k < |slots| && slots[k] == "XXX"
      ensures Substitution.Rank(slots, k) < 7 && filled[k] == pairs[XxxPosition(Substitution.Rank(slots, k))].1
    {
      var c := Substitution.Rank(slots, k);
      XxxRank(toks, c);
      Substitution.NthRank(toks, XxxPosition(c));
    }
    forall k, i | 0 <= k < |slots| && 0 <= i < |pairs| && slots[k] == pairs[i].0 != "XXX"
      ensures filled[k] == pairs[i].1
    {
      Substitution.OnlyAt(toks, i);
      Substitution.NthRank(toks, i);
    }
  }

  /** The contract's list names the customer twice: in the `XXX` pairs of
      rank 0 and 6. */
  lemma ContractNameTwice(data: Request, today: string)
    requires forall k :: k in RequiredKeys(Contratto) ==> Has(data, k)
    ensures data.name.Some? && Values(Contratto, data, today)[XxxPosition(0)] == data.name.value
    ensures Values(Contratto, data, today)[XxxPosition(6)] == data.name.value
  {
    assert Has(data, Name);
  }

  /** `f"{x:.2f}%"`. */
  function PercentText(x: real): string
  {
    Money.Fixed(x, 2) + "%"
  }

  /** `data['payment'] * data['duration']`. */
  function TotalPayments(payment: real, duration: int): real
  {
    payment * duration as real
  }

  /** The `(old, new)` list built for `doc` from `data`, with `today` the
      text of `format_date()`; the KeyError of the first key it reads that
      `data` lacks otherwise. */
  function Replacements(doc: DocType, data: Request, today: string): (r: Result<seq<(string, string)>>)
    ensures r.Ok? <==> forall k :: k in RequiredKeys(doc) ==> Has(data, k)
    ensures r.Err? ==>
      exists i :: 0 <= i < |RequiredKeys(doc)| && r.error == MissingField(KeyName(RequiredKeys(doc)[i]))
        && !Has(data, RequiredKeys(doc)[i]) && forall j :: 0 <= j < i ==> Has(data, RequiredKeys(doc)[j])
    ensures r.Ok? ==>
      && Substitution.Olds(r.value) == Tokens(doc)
      && Substitution.News(r.value) == Values(doc, data, today)
  {
    match FirstMissing(data, RequiredKeys(doc))
    case Some(i) => Err(MissingField(KeyName(RequiredKeys(doc)[i])))
    case None => Ok(Substitution.Zip(Tokens(doc), Values(doc, data, today)))
  }

  /** The `new` strings of `doc`'s list once every key it reads is present. */
  function Values(doc: DocType, data: Request, today: string): (vs: seq<string>)
    requires forall k :: k in RequiredKeys(doc) ==> Has(data, k)
    ensures |vs| == |Tokens(doc)|
  {
    match doc
    case Contratto =>
      assert Has(data, Name) && Has(data, Amount) && Has(data, Tan) && Has(data, Taeg)
        && Has(data, Duration) && Has(data, Payment);
      var table := match data.amortizationTable case Some(t) => t case None => "";
      ContractValues(data.name.value, data.amount.value, data.tan.value, data.taeg.value,
                     data.duration.value, data.payment.value, table, today)
    case Carta =>
      assert Has(data, Name) && Has(data, Amount) && Has(data, Tan) && Has(data, Duration) && Has(data, Payment);
      [data.name.value,
       Money.FormatMoney(data.amount.value),
       PercentText(data.tan.value),
       Money.IntText(data.duration.value) + " mesi",
       Money.FormatMoney(data.payment.value)]
    case Garanzia =>
      assert Has(data, Name);
      [data.name.value]
    case Approvazione =>
      assert Has(data, Name) && Has(data, Amount) && Has(data, Tan);
      [data.name.value,
       Money.FormatMoney(data.amount.value),
       PercentText(data.tan.value)]
  }

  function ContractValues(name: string, amount: real, tan: real, taeg: real, duration: int, payment: real,
                          table: string, today: string): (vs: seq<string>)
    ensures |vs| == 13
  {
    var totalPayments := TotalPayments(payment, duration);
    [table,
     name,
     Money.FormatMoney(amount),
     PercentText(tan),
     PercentText(taeg),
     Money.IntText(duration) + " mesi",
     Money.FormatMoney(payment),
     today,
     name,
     Money.Fixed(Amortization.MonthlyRate(tan), 10),
     "€ " + Money.FormatMoney(payment),
     "€ " + Money.FormatMoney(totalPayments),
     "€ " + Money.FormatMoney(totalPayments - amount)]
  }

  // ---------------------------------------------------------------- the XXX placeholder

  /** Text that cannot take part in an `XXX` placeholder: it contains no
      `XXX` and does not end in `X`. */
  predicate Plain(s: string)
  {
    Substitution.Absent(s, "XXX") && (|s| == 0 || s[|s| - 1] != 'X')
  }

  /** `Plain` is exactly the condition that no occurrence of `XXX` can
      start inside the text, whatever follows it. */
  lemma PlainInert(s: string)
    ensures Plain(s) <==> Substitution.Inert(s, "XXX")
  {
    if Plain(s) {
      PlainIsInert(s);
    }
    if Substitution.Inert(s, "XXX") {
      forall j | 0 <= j <= |s| ensures !Substitution.OccursAt(s, "XXX", j) {
        if j < |s| {
          assert Substitution.OccursAt(s, "XXX", j) ==> Substitution.StartsAt(s, "XXX", j);
        }
      }
      if |s| > 0 {
        EndingXStarts(s);
      }
    }
  }

  lemma PlainIsInert(s: string)
    requires Plain(s)
    ensures Substitution.Inert(s, "XXX")
  {
    forall j | 0 <= j < |s| ensures !Substitution.StartsAt(s, "XXX", j) {
      if |s| - j >= 3 {
        assert !Substitution.OccursAt(s, "XXX", j);
      } else {
        var t := s[j..];
        assert t[|t| - 1] == s[|s| - 1];
      }
    }
  }

  /** A final `X` may be the start of a placeholder. */
  lemma EndingXStarts(s: string)
    requires |s| > 0
    ensures s[|s| - 1] == 'X' ==> Substitution.StartsAt(s, "XXX", |s| - 1)
  {
    if s[|s| - 1] == 'X' {
      assert s[|s| - 1..] == "XXX"[..1];
    }
  }

  /** Text with no `X` at all cannot take part in a placeholder. */
  lemma NoXInert(s: string)
    requires forall i :: 0 <= i < |s| ==> s[i] != 'X'
    ensures Substitution.Inert(s, "XXX")
  {
    forall j | 0 <= j < |s| ensures !Substitution.StartsAt(s, "XXX", j) {
      if |s| - j >= 3 {
        assert s[j..j + 3][0] == s[j];
      } else {
        assert s[j..][0] == s[j];
      }
    }
  }

  /** The formatted values of the letters never interfere with an `XXX`
      placeholder: only the customer's name can. */
  lemma FormattedInert(x: real, n: int)
    ensures Substitution.Inert(Money.FormatMoney(x), "XXX")
    ensures Substitution.Inert(PercentText(x), "XXX")
    ensures Substitution.Inert(Money.IntText(n) + " mesi", "XXX")
  {
    Money.MoneyTextNumeral(Money.RoundScaled(x, 2));
    Money.FixedTextNumeral(Money.RoundScaled(x, 2), 2);
    Money.IntTextNumeral(n);
    NoXInert(Money.FormatMoney(x));
    NoXInert(PercentText(x));
    NoXInert(Money.IntText(n) + " mesi");
  }
}
