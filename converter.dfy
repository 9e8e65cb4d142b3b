/**
 * The converter's top-level component: its five-field state, the handlers
 * the child components call back into, the page-title rule run after each
 * render, and the two values the render derives from the state.
 */
module Converter {
  import opened Text
  import opened Catalog

  /** A JavaScript number as the amount fields hold it: a value, or NaN when `parseFloat` fails. */
  datatype Number = Finite(value: real) | NaN

  /** `amount * rate`, with NaN absorbing as in JavaScript. */
  function Multiply(amount: Number, rate: real): (r: Number)
    ensures r.NaN? <==> amount.NaN?
    ensures r.Finite? ==> r.value == amount.value * rate
  {
    match amount
    case NaN => NaN
    case Finite(v) => Finite(v * rate)
  }

  const DefaultCurrency: string := "United States Dollar"
  const TitlePrefix: string := "Converter - "

  /** The page title shown for a selected currency. */
  function Title(currency: string): (r: string)
    ensures |r| == |TitlePrefix| + |currency|
    ensures r[..|TitlePrefix|] == TitlePrefix && r[|TitlePrefix|..] == currency
  {
    TitlePrefix + currency
  }

  /** Different currencies give different titles. */
  lemma TitleInjective(a: string, b: string)
    requires Title(a) == Title(b)
    ensures a == b
  {
    assert a == Title(a)[|TitlePrefix|..];
    assert b == Title(b)[|TitlePrefix|..];
  }

  /**
   * The history of page titles while `currency` is selected: at least the
   * one set on mount, the latest one naming `currency`, and no title set
   * twice in a row.
   */
  ghost predicate TitleLog(titles: seq<string>, currency: string)
  {
    && |titles| > 0
    && titles[|titles| - 1] == Title(currency)
    && forall k :: 0 <= k < |titles| - 1 ==> titles[k] != titles[k + 1]
  }

  /** Setting the title after a change of currency keeps the history well formed. */
  lemma TitleLogExtend(titles: seq<string>, previous: string, currency: string)
    requires TitleLog(titles, previous) && currency != previous
    ensures TitleLog(titles + [Title(currency)], currency)
  {
    if Title(currency) == Title(previous) {
      TitleInjective(currency, previous);
    }
  }

  class App {
    /** The bundled currency data, fixed for the life of the page. */
    const catalog: seq<CurrencyRecord>

    /** Whether the list of currencies is shown. */
    var open: bool
    /** The amount as typed, not yet submitted. */
    var baseAmount: Number
    /** The amount last submitted; the conversion uses this one. */
    var baseAmountSubmitted: Number
    /** The name of the selected currency. */
    var currency: string
    /** The contents of the search box. */
    var inputSearch: string

    /** Every value written to the page title, in order. */
    ghost var titles: seq<string>

    /**
     * The title history ends with the selected currency's title, and the
     * selected currency is in the catalog, so the render's rate lookup succeeds.
     */
    ghost predicate Valid()
      reads this
    {
      TitleLog(titles, currency) && HasName(catalog, currency)
    }

    /**
     * The initial state, then the first render's mount hook, which sets the
     * title once. The first render looks up the default currency's rate, so the
     * catalog must hold it.
     */
    constructor (catalog: seq<CurrencyRecord>)
      requires HasName(catalog, DefaultCurrency)
      ensures Valid()
      ensures this.catalog == catalog
      ensures open && baseAmount == Finite(1.0) && baseAmountSubmitted == Finite(1.0)
      ensures currency == DefaultCurrency && inputSearch == ""
      ensures titles == [Title(DefaultCurrency)]
    {
      this.catalog := catalog;
      open := true;
      baseAmount := Finite(1.0);
      baseAmountSubmitted := Finite(1.0);
      currency := DefaultCurrency;
      inputSearch := "";
      titles := [];
      new;
      UpdateTitle();
    }

    /** Writes the title for the current currency. */
    method UpdateTitle()
      modifies this`titles
      ensures titles == old(titles) + [Title(currency)]
    {
      titles := titles + [Title(currency)];
    }

    /** The hook run after every re-render: a new title only when the currency changed. */
    method ComponentDidUpdate(previousCurrency: string)
      requires TitleLog(titles, previousCurrency) && HasName(catalog, currency)
      modifies this`titles
      ensures Valid()
      ensures titles == old(titles) + if currency != previousCurrency then [Title(currency)] else []
    {
      if currency != previousCurrency {
        TitleLogExtend(titles, previousCurrency, currency);
        UpdateTitle();
      }
    }

    /** Shows or hides the list of currencies. */
    method HandleClick(newValue: bool)
      requires Valid()
      modifies this
      ensures Valid()
      ensures open == newValue
      ensures baseAmount == old(baseAmount) && baseAmountSubmitted == old(baseAmountSubmitted)
      ensures currency == old(currency) && inputSearch == old(inputSearch)
      ensures titles == old(titles)
    {
      var previousCurrency := currency;
      open := newValue;
      ComponentDidUpdate(previousCurrency);
    }

    /**
     * Selects a currency; the title follows when the selection changed. The
     * render that follows looks up the new name's rate, so it must be in the
     * catalog: `ShownEntriesResolve` proves that every name the list offers is.
     */
    method SetCurrency(newCurrency: string)
      requires Valid() && HasName(catalog, newCurrency)
      modifies this
      ensures Valid()
      ensures currency == newCurrency
      ensures open == old(open) && baseAmount == old(baseAmount)
      ensures baseAmountSubmitted == old(baseAmountSubmitted) && inputSearch == old(inputSearch)
      ensures titles == old(titles) + if newCurrency != old(currency) then [Title(newCurrency)] else []
    {
      var previousCurrency := currency;
      currency := newCurrency;
      ComponentDidUpdate(previousCurrency);
    }

    /** Stores the search box contents as typed. */
    method SetSearch(newValue: string)
      requires Valid()
      modifies this
      ensures Valid()
      ensures inputSearch == newValue
      ensures open == old(open) && baseAmount == old(baseAmount)
      ensures baseAmountSubmitted == old(baseAmountSubmitted) && currency == old(currency)
      ensures titles == old(titles)
    {
      var previousCurrency := currency;
      inputSearch := newValue;
      ComponentDidUpdate(previousCurrency);
    }

    /** Stores the typed amount; the submitted amount is left alone. */
    method SetBaseAmount(newBaseAmount: Number)
      requires Valid()
      modifies this
      ensures Valid()
      ensures baseAmount == newBaseAmount
      ensures open == old(open) && baseAmountSubmitted == old(baseAmountSubmitted)
      ensures currency == old(currency) && inputSearch == old(inputSearch)
      ensures titles == old(titles)
    {
      var previousCurrency := currency;
      baseAmount := newBaseAmount;
      ComponentDidUpdate(previousCurrency);
    }

    /** Submits the form: the typed amount becomes the amount converted. */
    method HandleSubmit()
      requires Valid()
      modifies this
      ensures Valid()
      ensures baseAmountSubmitted == old(baseAmount)
      ensures open == old(open) && baseAmount == old(baseAmount)
      ensures currency == old(currency) && inputSearch == old(inputSearch)
      ensures titles == old(titles)
    {
      var previousCurrency := currency;
      baseAmountSubmitted := baseAmount;
      ComponentDidUpdate(previousCurrency);
    }

    /** The currencies the list shows for the current search text. */
    function GetFilteredCurrencies(): (r: seq<CurrencyRecord>)
      reads this
      ensures IsBlank(inputSearch) ==> r == catalog
      ensures !IsBlank(inputSearch) ==> forall x :: x in r <==> x in catalog && Matches(x, inputSearch)
      ensures !IsBlank(inputSearch) ==> forall x :: multiset(r)[x] == if Matches(x, inputSearch) then multiset(catalog)[x] else 0
      ensures IsSubsequence(r, catalog)
    {
      FilteredCurrencies(catalog, inputSearch)
    }

    /**
     * The submitted amount converted at the rate of the first catalog entry
     * named like the selected currency; such an entry must exist.
     */
    function ComputeAmount(): (r: Number)
      reads this
      requires HasName(catalog, currency)
      ensures r.NaN? <==> baseAmountSubmitted.NaN?
      ensures exists i :: IsFirstWithName(catalog, currency, i) && r == Multiply(baseAmountSubmitted, catalog[i].rate)
    {
      var currencyData := Find(catalog, currency);
      Multiply(baseAmountSubmitted, currencyData.value.rate)
    }
  }

  /** A session on the sample catalog: convert, submit, select, search, and type an unparsable amount. */
  method Session()
  {
    assert SampleCatalog()[0].name == DefaultCurrency;
    var app := new App(SampleCatalog());
    var amount := app.ComputeAmount();
    assert amount == Finite(1.1);

    app.SetBaseAmount(Finite(5.0));
    assert app.baseAmountSubmitted == Finite(1.0);
    app.HandleSubmit();
    assert app.catalog[1].name == "Japanese Yen";
    app.SetCurrency("Japanese Yen");
    assert app.titles == [Title(DefaultCurrency), Title("Japanese Yen")];
    amount := app.ComputeAmount();
    assert amount == Finite(650.0);

    app.SetCurrency("Japanese Yen");
    assert |app.titles| == 2;

    var shown := app.GetFilteredCurrencies();
    assert shown == SampleCatalog();
    app.SetSearch("yen");
    SearchYen();
    shown := app.GetFilteredCurrencies();
    assert shown == [CurrencyRecord("Japanese Yen", 130.0)];
    ShownEntriesResolve(app.catalog, app.inputSearch, shown[0]);
    app.SetCurrency(shown[0].name);

    app.SetBaseAmount(NaN);
    app.HandleSubmit();
    amount := app.ComputeAmount();
    assert amount == NaN;
  }
}
