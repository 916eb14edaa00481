/** The HTML half of the `generate_*_pdf` entry points and of
    `_generate_pdf_with_images`: default the payment, build the contract's
    amortization table, then substitute the request's values into the
    template in list order. The template text is a parameter (it is what
    `fix_html_layout` returns), as is the date text of `format_date()`. */
module Generator {
  import opened Wrappers
  import Amortization
  import AmortizationTable
  import Substitution
  import opened Documents

  /** `if 'payment' not in data: data['payment'] = monthly_payment(data['amount'],
      data['duration'], data['tan'])`. */
  function WithPayment(data: Request): (r: Result<Request>)
    ensures data.payment.Some? ==> r == Ok(data)
    ensures data.payment.None? && data.amount.None? ==> r == Err(MissingField("amount"))
    ensures data.payment.None? && data.amount.Some? && data.duration.None? ==> r == Err(MissingField("duration"))
    ensures data.payment.None? && data.amount.Some? && data.duration.Some? && data.tan.None? ==>
      r == Err(MissingField("tan"))
    ensures data.payment.None? && data.amount.Some? && data.duration.Some? && data.tan.Some? ==>
      var p := Amortization.MonthlyPayment(data.amount.value, data.duration.value, data.tan.value);
      && (p.Err? ==> r == Err(p.error))
      && (p.Ok? ==> r == Ok(data.(payment := Some(p.value))))
  {
    if data.payment.Some? then Ok(data)
    else
      var amount :- Need(data.amount, Amount);
      var duration :- Need(data.duration, Duration);
      var tan :- Need(data.tan, Tan);
      var payment :- Amortization.MonthlyPayment(amount, duration, tan);
      Ok(data.(payment := Some(payment)))
  }

  /** The functions below take the table renderer as a parameter `render`;
      `generate_amortization_html` is `AmortizationTable.Table`. */
  type Renderer = seq<Amortization.Entry> -> string

  /** The request as `_generate_pdf_with_images` receives it from the entry
      point of `doc`. */
  function Prepared(doc: DocType, data: Request, render: Renderer): Result<Request>
  {
    match doc
    case Contratto =>
      var d :- WithPayment(data);
      var amount :- Need(d.amount, Amount);
      var duration :- Need(d.duration, Duration);
      var tan :- Need(d.tan, Tan);
      var schedule :- Amortization.Schedule(amount, duration, tan);
      Ok(d.(amortizationTable := Some(render(schedule))))
    case Carta => WithPayment(data)
    case Garanzia => Ok(data)
    case Approvazione => Ok(data)
  }

  /** The HTML handed to the PDF renderer for `doc`, or the exception raised
      on the way. */
  function Assembled(doc: DocType, data: Request, template: string, today: string, render: Renderer): Result<string>
  {
    var d :- Prepared(doc, data, render);
    var pairs :- Replacements(doc, d, today);
    Ok(Substitution.ApplyAll(template, pairs))
  }

  /** What the entry point of `doc` does to `data` before handing it on,
      step by step as the source runs it. */
  method PrepareRequest(doc: DocType, data: Request) returns (r: Result<Request>)
    ensures r == Prepared(doc, data, AmortizationTable.Table)
  {
    var d := data;
    if doc == Contratto || doc == Carta {
      var withPayment := WithPayment(d);
      if withPayment.Err? {
        return Err(withPayment.error);
      }
      d := withPayment.value;
    }
    if doc == Contratto {
      if d.amount.None? {
        return Err(MissingField("amount"));
      }
      if d.duration.None? {
        return Err(MissingField("duration"));
      }
      if d.tan.None? {
        return Err(MissingField("tan"));
      }
      var schedule := Amortization.CalculateAmortizationSchedule(d.amount.value, d.duration.value, d.tan.value);
      if schedule.Err? {
        return Err(schedule.error);
      }
      var table := AmortizationTable.GenerateAmortizationHtml(schedule.value);
      d := d.(amortizationTable := Some(table));
    }
    r := Ok(d);
  }

  /** The entry point of `doc` up to the substitution loop of
      `_generate_pdf_with_images`. */
  method AssembleHtml(doc: DocType, data: Request, template: string, today: string) returns (r: Result<string>)
    ensures r == Assembled(doc, data, template, today, AmortizationTable.Table)
  {
    var d :- PrepareRequest(doc, data);
    var replacements :- Replacements(doc, d, today);
    var html := Substitution.ApplyReplacements(template, replacements);
    r := Ok(html);
  }

  // ---------------------------------------------------------------- properties

  /** A payment the caller supplies is kept; a missing one is the annuity
      instalment of the request's amount, duration and rate. */
  lemma PaymentDefault(doc: DocType, data: Request, render: Renderer)
    requires doc == Contratto || doc == Carta
    requires Prepared(doc, data, render).Ok?
    ensures data.payment.Some? ==> Prepared(doc, data, render).value.payment == data.payment
    ensures data.payment.None? ==>
      && data.amount.Some? && data.duration.Some? && data.tan.Some?
      && Amortization.MonthlyPayment(data.amount.value, data.duration.value, data.tan.value).Ok?
      && Prepared(doc, data, render).value.payment ==
           Some(Amortization.MonthlyPayment(data.amount.value, data.duration.value, data.tan.value).value)
  {
  }

  /** The contract's table is always rebuilt from the request's amount,
      duration and rate, whatever `amortization_table` held before. */
  lemma ContractTable(data: Request, render: Renderer)
    requires Prepared(Contratto, data, render).Ok?
    ensures data.amount.Some? && data.duration.Some? && data.tan.Some?
    ensures Amortization.Schedule(data.amount.value, data.duration.value, data.tan.value).Ok?
    ensures Prepared(Contratto, data, render).value.amortizationTable ==
      Some(render(Amortization.Schedule(data.amount.value, data.duration.value, data.tan.value).value))
  {
  }

  /** With every key present (the payment may be missing for the card
      letter and the contract, which compute it), a positive duration and a
      rate that is not negative wherever an instalment is computed, no
      exception is raised. */
  lemma AssembledSucceeds(doc: DocType, data: Request, template: string, today: string, render: Renderer)
    requires forall k :: k in RequiredKeys(doc) && k != Payment ==> Has(data, k)
    requires doc == Contratto || (doc == Carta && data.payment.None?) ==>
      data.duration.Some? && data.duration.value > 0 && data.tan.Some? && data.tan.value >= 0.0
    ensures Assembled(doc, data, template, today, render).Ok?
  {
    match doc
    case Contratto =>
      assert Has(data, Amount) && Has(data, Duration) && Has(data, Tan);
      var d := WithPayment(data).value;
      assert forall k :: k in RequiredKeys(doc) ==> Has(d, k);
    case Carta =>
      assert Has(data, Amount) && Has(data, Duration) && Has(data, Tan);
      var d := WithPayment(data).value;
      assert forall k :: k in RequiredKeys(doc) ==> Has(d, k);
    case Garanzia =>
    case Approvazione =>
  }

  /** `generate_garanzia_pdf(name)` cannot miss a key: the template's first
      `XXX` becomes the name. */
  lemma GuaranteeAssembled(name: string, template: string, today: string, render: Renderer)
    ensures Assembled(Garanzia, GuaranteeRequest(name), template, today, render) ==
      Ok(Substitution.ReplaceFirst(template, "XXX", name))
  {
    var data := GuaranteeRequest(name);
    var pairs := Replacements(Garanzia, data, today).value;
    assert Substitution.Olds(pairs) == ["XXX"] && Substitution.News(pairs) == [name];
    assert pairs == [("XXX", name)] by {
      assert pairs[0].0 == "XXX" && pairs[0].1 == name;
    }
    assert pairs[1..] == [];
    assert Substitution.ApplyAll(template, pairs) == Substitution.ReplaceFirst(template, "XXX", name);
    assert Prepared(Garanzia, data, render) == Ok(data);
  }

  /** Filling a template whose placeholders are laid out as `first`, then
      each token of `doc`'s list followed by a fixed segment: if no value
      followed by its segment, and not `first`, can be mistaken for the start
      of a token, the k-th placeholder receives the k-th value. */
  lemma TemplateFilledInOrder(doc: DocType, data: Request, today: string, first: string, segs: seq<string>, render: Renderer)
    requires Prepared(doc, data, render).Ok? && Replacements(doc, Prepared(doc, data, render).value, today).Ok?
    requires |segs| == |Tokens(doc)|
    requires Substitution.InertFor(first, Tokens(doc))
    requires forall k :: 0 <= k < |segs| - 1 ==>
      Substitution.InertFor(Values(doc, Prepared(doc, data, render).value, today)[k] + segs[k], Tokens(doc))
    ensures Assembled(doc, data, Substitution.Fill(first, segs, Tokens(doc)), today, render) ==
      Ok(Substitution.Fill(first, segs, Values(doc, Prepared(doc, data, render).value, today)))
  {
    var pairs := Replacements(doc, Prepared(doc, data, render).value, today).value;
    Substitution.FillInOrder(first, segs, pairs);
  }

  /** The same for a template whose slots hold the tokens of `doc`'s list in
      any order: each slot receives the value `Substitution.Filled` assigns
      it, the c-th slot of a token the value of the c-th pair for it. */
  lemma TemplateFilledAnyOrder(doc: DocType, data: Request, today: string, first: string, segs: seq<string>,
                               slots: seq<string>, pairs: seq<(string, string)>, render: Renderer)
    requires Prepared(doc, data, render).Ok?
    requires Replacements(doc, Prepared(doc, data, render).value, today) == Ok(pairs)
    requires |segs| == |slots| && multiset(slots) == multiset(Substitution.Olds(pairs))
    requires Substitution.InertFor(first, Substitution.Olds(pairs))
    requires forall k :: 0 <= k < |slots| - 1 ==>
      Substitution.InertFor(Substitution.Filled(slots, pairs)[k] + segs[k], Substitution.Olds(pairs))
    requires forall k, t :: 0 <= k < |slots| - 1 && t in Substitution.Olds(pairs) && t != slots[k] ==>
      Substitution.Inert(slots[k] + segs[k], t)
    ensures Assembled(doc, data, Substitution.Fill(first, segs, slots), today, render) ==
      Ok(Substitution.Fill(first, segs, Substitution.Filled(slots, pairs)))
  {
    var template := Substitution.Fill(first, segs, slots);
    assert Assembled(doc, data, template, today, render) == Ok(Substitution.ApplyAll(template, pairs));
    Substitution.FillAnyOrder(first, segs, slots, pairs);
  }

  /** The contract's template may hold its placeholders in any order and
      `XXX` as many times as the list does: if the fixed text and the values
      cannot be mistaken for the start of a token, and no slot's own text can
      start a different token, each slot receives the value `ContractSlots`
      describes. */
  lemma ContractFilledInOrder(data: Request, today: string, first: string, segs: seq<string>,
                              slots: seq<string>, pairs: seq<(string, string)>, render: Renderer)
    requires Prepared(Contratto, data, render).Ok?
    requires Replacements(Contratto, Prepared(Contratto, data, render).value, today) == Ok(pairs)
    requires |segs| == |slots| && multiset(slots) == multiset(Substitution.Olds(pairs))
    requires Substitution.InertFor(first, Substitution.Olds(pairs))
    requires forall k :: 0 <= k < |slots| - 1 ==>
      Substitution.InertFor(Substitution.Filled(slots, pairs)[k] + segs[k], Substitution.Olds(pairs))
    requires forall k, t :: 0 <= k < |slots| - 1 && t in Substitution.Olds(pairs) && t != slots[k] ==>
      Substitution.Inert(slots[k] + segs[k], t)
    ensures Assembled(Contratto, data, Substitution.Fill(first, segs, slots), today, render) ==
      Ok(Substitution.Fill(first, segs, Substitution.Filled(slots, pairs)))
    ensures ContractSlots(slots, pairs)
  {
    TemplateFilledAnyOrder(Contratto, data, today, first, segs, slots, pairs, render);
    ContractPairs(pairs);
    ContractRanks(slots, pairs);
  }

  /** For the three letters, whose placeholders are all `XXX`: if the fixed
      text of the template and the customer's name contain no `XXX` and do
      not end in `X`, the k-th `XXX` receives the k-th value of the request
      as the entry point prepared it. */
  lemma LetterFilledInOrder(doc: DocType, data: Request, today: string, first: string, segs: seq<string>, render: Renderer)
    requires doc != Contratto
    requires forall k :: k in RequiredKeys(doc) && k != Payment ==> Has(data, k)
    requires doc == Carta && data.payment.None? ==>
      data.duration.Some? && data.duration.value > 0 && data.tan.Some? && data.tan.value >= 0.0
    requires |segs| == |Tokens(doc)|
    requires data.name.Some? && Plain(data.name.value)
    requires Plain(first) && forall k :: 0 <= k < |segs| - 1 ==> Plain(segs[k])
    ensures Prepared(doc, data, render).Ok?
    ensures forall k :: k in RequiredKeys(doc) ==> Has(Prepared(doc, data, render).value, k)
    ensures Assembled(doc, data, Substitution.Fill(first, segs, Tokens(doc)), today, render) ==
      Ok(Substitution.Fill(first, segs, Values(doc, Prepared(doc, data, render).value, today)))
  {
    LetterPrepared(doc, data, render);
    var d := Prepared(doc, data, render).value;
    var vs := Values(doc, d, today);
    PlainInert(first);
    PlainInert(d.name.value);
    forall k | 0 <= k < |segs| - 1 ensures Substitution.InertFor(vs[k] + segs[k], Tokens(doc)) {
      PlainInert(segs[k]);
      LetterValueInert(doc, d, today, k);
      Substitution.InertConcat(vs[k], segs[k], "XXX");
    }
    TemplateFilledInOrder(doc, data, today, first, segs, render);
  }

  /** A letter template with more `XXX` than the list has values: the
      values go to the first ones and whatever follows, surplus `XXX`
      included, is left in the text. */
  lemma LetterSurplusKept(doc: DocType, data: Request, today: string, first: string, segs: seq<string>,
                          tail: string, render: Renderer)
    requires doc != Contratto
    requires forall k :: k in RequiredKeys(doc) && k != Payment ==> Has(data, k)
    requires doc == Carta && data.payment.None? ==>
      data.duration.Some? && data.duration.value > 0 && data.tan.Some? && data.tan.value >= 0.0
    requires |segs| == |Tokens(doc)|
    requires data.name.Some? && Plain(data.name.value)
    requires Plain(first) && forall k :: 0 <= k < |segs| - 1 ==> Plain(segs[k])
    ensures Prepared(doc, data, render).Ok?
    ensures forall k :: k in RequiredKeys(doc) ==> Has(Prepared(doc, data, render).value, k)
    ensures Assembled(doc, data, Substitution.Fill(first, segs, Tokens(doc)) + tail, today, render) ==
      Ok(Substitution.Fill(first, segs, Values(doc, Prepared(doc, data, render).value, today)) + tail)
  {
    LetterPrepared(doc, data, render);
    var n := |segs|;
    var segs' := segs[n - 1 := segs[n - 1] + tail];
    Substitution.FillTail(first, segs, Tokens(doc), tail);
    Substitution.FillTail(first, segs, Values(doc, Prepared(doc, data, render).value, today), tail);
    assert forall k :: 0 <= k < n - 1 ==> segs'[k] == segs[k];
    LetterFilledInOrder(doc, data, today, first, segs', render);
  }

  /** A letter's entry point fills in the payment where it is missing and
      otherwise passes the request on unchanged. */
  lemma LetterPrepared(doc: DocType, data: Request, render: Renderer)
    requires doc != Contratto
    requires forall k :: k in RequiredKeys(doc) && k != Payment ==> Has(data, k)
    requires doc == Carta && data.payment.None? ==>
      data.duration.Some? && data.duration.value > 0 && data.tan.Some? && data.tan.value >= 0.0
    ensures Prepared(doc, data, render).Ok?
    ensures Prepared(doc, data, render).value == data.(payment := Prepared(doc, data, render).value.payment)
    ensures forall k :: k in RequiredKeys(doc) ==> Has(Prepared(doc, data, render).value, k)
  {
    if doc == Carta {
      assert Has(data, Amount) && Has(data, Duration) && Has(data, Tan);
    }
  }

  lemma LetterValueInert(doc: DocType, data: Request, today: string, k: nat)
    requires doc != Contratto
    requires forall k :: k in RequiredKeys(doc) ==> Has(data, k)
    requires k < |Tokens(doc)|
    requires data.name.Some? && Substitution.Inert(data.name.value, "XXX")
    ensures Substitution.Inert(Values(doc, data, today)[k], "XXX")
  {
    var vs := Values(doc, data, today);
    if k > 0 {
      match doc
      case Carta =>
        assert Has(data, Amount) && Has(data, Tan) && Has(data, Duration) && Has(data, Payment);
        FormattedInert(data.amount.value, data.duration.value);
        FormattedInert(data.tan.value, data.duration.value);
        FormattedInert(data.payment.value, data.duration.value);
      case Approvazione =>
        assert Has(data, Amount) && Has(data, Tan);
        FormattedInert(data.amount.value, 0);
        FormattedInert(data.tan.value, 0);
    }
  }
}
