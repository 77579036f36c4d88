/** The canonical statement payload, its constructor's checks, and its stored
    JSON form. */
module Payloads {
  import opened Wrappers
  import opened Text
  import opened Decimals
  import opened Dates

  datatype StatementType = INCOME_STATEMENT | BALANCE_SHEET | CASH_FLOW_STATEMENT
  datatype AccountingStandard = US_GAAP | IFRS | OTHER_STANDARD
  datatype FiscalPeriod = FY | Q1 | Q2 | Q3 | Q4 | H1 | OTHER_PERIOD

  /** A canonical metric is a string enumeration member, so it is its own code. */
  type Metric = string

  function StatementTypeCode(x: StatementType): string {
    match x
    case INCOME_STATEMENT => "INCOME_STATEMENT"
    case BALANCE_SHEET => "BALANCE_SHEET"
    case CASH_FLOW_STATEMENT => "CASH_FLOW_STATEMENT"
  }

  function AccountingStandardCode(x: AccountingStandard): string {
    match x
    case US_GAAP => "US_GAAP"
    case IFRS => "IFRS"
    case OTHER_STANDARD => "OTHER"
  }

  function FiscalPeriodCode(x: FiscalPeriod): string {
    match x
    case FY => "FY"
    case Q1 => "Q1"
    case Q2 => "Q2"
    case Q3 => "Q3"
    case Q4 => "Q4"
    case H1 => "H1"
    case OTHER_PERIOD => "OTHER"
  }

  function ToStatementType(t: string): Option<StatementType> {
    if t == "INCOME_STATEMENT" then Some(INCOME_STATEMENT)
    else if t == "BALANCE_SHEET" then Some(BALANCE_SHEET)
    else if t == "CASH_FLOW_STATEMENT" then Some(CASH_FLOW_STATEMENT)
    else None
  }

  function ToAccountingStandard(t: string): Option<AccountingStandard> {
    if t == "US_GAAP" then Some(US_GAAP)
    else if t == "IFRS" then Some(IFRS)
    else if t == "OTHER" then Some(OTHER_STANDARD)
    else None
  }

  function ToFiscalPeriod(t: string): Option<FiscalPeriod> {
    if t == "FY" then Some(FY)
    else if t == "Q1" then Some(Q1)
    else if t == "Q2" then Some(Q2)
    else if t == "Q3" then Some(Q3)
    else if t == "Q4" then Some(Q4)
    else if t == "H1" then Some(H1)
    else if t == "OTHER" then Some(OTHER_PERIOD)
    else None
  }

  lemma EnumCodes(x: StatementType, y: AccountingStandard, z: FiscalPeriod)
    ensures ToStatementType(StatementTypeCode(x)) == Some(x)
    ensures ToAccountingStandard(AccountingStandardCode(y)) == Some(y)
    ensures ToFiscalPeriod(FiscalPeriodCode(z)) == Some(z)
  {
    assert "BALANCE_SHEET"[0] != "INCOME_STATEMENT"[0]
        && "CASH_FLOW_STATEMENT"[0] !in {"BALANCE_SHEET"[0], "INCOME_STATEMENT"[0]};
    assert "FY"[0] != "Q1"[0] && "H1"[0] != "Q1"[0] && "FY"[0] != "H1"[0];
    assert "Q1"[1] != "Q2"[1] && "Q1"[1] != "Q3"[1] && "Q1"[1] != "Q4"[1];
    assert "Q2"[1] != "Q3"[1] && "Q2"[1] != "Q4"[1] && "Q3"[1] != "Q4"[1];
  }

  datatype Payload = Payload(
    cik: string,
    statementType: StatementType,
    accountingStandard: AccountingStandard,
    statementDate: Date,
    fiscalYear: int,
    fiscalPeriod: FiscalPeriod,
    currency: string,
    unitMultiplier: int,
    coreMetrics: map<Metric, Decimal>,
    extraMetrics: map<string, Decimal>,
    dimensions: map<string, string>,
    sourceAccessionId: string,
    sourceTaxonomy: string,
    sourceVersionSequence: int)

  /** What `__post_init__` checks and the field types do not already say. */
  predicate Valid(p: Payload) {
    && Strip(p.cik) != "" && p.fiscalYear > 0 && Strip(p.currency) != ""
    && p.sourceVersionSequence > 0 && Strip(p.sourceAccessionId) != "" && Strip(p.sourceTaxonomy) != ""
  }

  // ----------------------------------------------------------------- stored form

  /** JSON values; a number is an integer or has a fraction. */
  datatype Json =
    | Null
    | Boolean(b: bool)
    | Number(n: int)
    | Fraction(x: real)
    | Text(text: string)
    | Array(items: seq<Json>)
    | Object(fields: map<string, Json>)

  /** The keys of the stored object that are ever read. */
  datatype Key =
    | CIK | STATEMENT_TYPE | ACCOUNTING_STANDARD | STATEMENT_DATE | FISCAL_YEAR | FISCAL_PERIOD | CURRENCY
    | UNIT_MULTIPLIER | CORE_METRICS | EXTRA_METRICS | DIMENSIONS
    | SOURCE_ACCESSION_ID | SOURCE_TAXONOMY | SOURCE_VERSION_SEQUENCE

  type Stored = map<Key, Json>

  function AmountTexts(amounts: map<string, Decimal>): map<string, Json> {
    map k | k in amounts :: Text(ToScientific(amounts[k]))
  }

  function Serialize(p: Payload): Stored {
    map[
      CIK := Text(p.cik),
      STATEMENT_TYPE := Text(StatementTypeCode(p.statementType)),
      ACCOUNTING_STANDARD := Text(AccountingStandardCode(p.accountingStandard)),
      STATEMENT_DATE := Text(IsoFormat(p.statementDate)),
      FISCAL_YEAR := Number(p.fiscalYear),
      FISCAL_PERIOD := Text(FiscalPeriodCode(p.fiscalPeriod)),
      CURRENCY := Text(p.currency),
      UNIT_MULTIPLIER := Number(p.unitMultiplier),
      CORE_METRICS := Object(AmountTexts(p.coreMetrics)),
      EXTRA_METRICS := Object(AmountTexts(p.extraMetrics)),
      DIMENSIONS := Object(map k | k in p.dimensions :: Text(p.dimensions[k])),
      SOURCE_ACCESSION_ID := Text(p.sourceAccessionId),
      SOURCE_TAXONOMY := Text(p.sourceTaxonomy),
      SOURCE_VERSION_SEQUENCE := Number(p.sourceVersionSequence)
    ]
  }

  // ------------------------------------------------------------------- mapping back

  /** How `str` and `int` treat values the serializer never writes there, and the
      texts `date.fromisoformat` reads. */
  datatype Coercions = Coercions(asText: Json -> string, asInt: Json -> Option<int>, asDate: string -> Option<Date>)

  function StrOf(j: Json, c: Coercions): string {
    match j
    case Text(t) => t
    case _ => c.asText(j)
  }

  function IntOf(j: Json, c: Coercions): Option<int> {
    match j
    case Number(n) => Some(n)
    case _ => c.asInt(j)
  }

  function DateOf(t: string, c: Coercions): Option<Date> {
    c.asDate(t)
  }

  datatype Error = EdgarIngestionError

  /** `payload.get(key, {})`, which must be an object. */
  function FieldsOf(stored: Stored, key: Key): Option<map<string, Json>> {
    if key !in stored then Some(map[])
    else
      match stored[key]
      case Object(fields) => Some(fields)
      case _ => None
  }

  /** Every amount reads as a decimal. */
  predicate AmountsRead(fields: map<string, Json>, c: Coercions) {
    forall k <- fields :: ToNumber(StrOf(fields[k], c)).Some?
  }

  function Amounts(fields: map<string, Json>, c: Coercions): map<string, Decimal>
    requires AmountsRead(fields, c)
  {
    map k | k in fields :: ToNumber(StrOf(fields[k], c)).value
  }

  /** The scalar fields, or None when one is missing or cannot be coerced. */
  function Scalars(stored: Stored, c: Coercions): Option<Payload> {
    if {CIK, STATEMENT_TYPE, ACCOUNTING_STANDARD, STATEMENT_DATE, FISCAL_YEAR, FISCAL_PERIOD, CURRENCY, UNIT_MULTIPLIER,
        SOURCE_ACCESSION_ID, SOURCE_TAXONOMY, SOURCE_VERSION_SEQUENCE} <= stored.Keys
       && stored[STATEMENT_DATE].Text? && stored[STATEMENT_TYPE].Text?
       && stored[ACCOUNTING_STANDARD].Text? && stored[FISCAL_PERIOD].Text? then
      match (DateOf(stored[STATEMENT_DATE].text, c), ToStatementType(stored[STATEMENT_TYPE].text),
             ToAccountingStandard(stored[ACCOUNTING_STANDARD].text), ToFiscalPeriod(stored[FISCAL_PERIOD].text),
             IntOf(stored[FISCAL_YEAR], c), IntOf(stored[UNIT_MULTIPLIER], c),
                 IntOf(stored[SOURCE_VERSION_SEQUENCE], c))
      case (Some(date), Some(statementType), Some(standard), Some(period), Some(year), Some(multiplier),
          Some(sequence)) =>
        Some(Payload(
          StrOf(stored[CIK], c), statementType, standard, date, year, period, StrOf(stored[CURRENCY], c), multiplier,
          map[], map[], map[],
          StrOf(stored[SOURCE_ACCESSION_ID], c), StrOf(stored[SOURCE_TAXONOMY], c), sequence))
      case _ => None
    else None
  }

  /** The constructor: the payload, or a ValueError. */
  function Construct(p: Payload): Result<Payload, Error> {
    if Valid(p) then Ok(p) else Err(EdgarIngestionError)
  }

  /** What mapping a stored object must give. `known` are the codes of the metric
      enumeration of the version that reads. */
  function MapSpec(stored: Stored, known: set<Metric>, c: Coercions): Result<Payload, Error> {
    match (Scalars(stored, c), FieldsOf(stored, CORE_METRICS), FieldsOf(stored, EXTRA_METRICS),
        FieldsOf(stored, DIMENSIONS))
    case (Some(p), Some(core), Some(extra), Some(dimensions)) =>
      if core.Keys <= known && AmountsRead(core, c) && AmountsRead(extra, c) then
        Construct(p.(coreMetrics := Amounts(core, c), extraMetrics := Amounts(extra, c),
                     dimensions := map k | k in dimensions :: StrOf(dimensions[k], c)))
      else Err(EdgarIngestionError)
    case _ => Err(EdgarIngestionError)
  }

  /** One pass over a stored object of amounts, filling a dict. `known` limits
      the keys, if it is given. */
  method ReadAmounts(fields: map<string, Json>, known: Option<set<string>>, c: Coercions)
    returns (r: Option<map<string, Decimal>>)
    ensures r.Some? <==> AmountsRead(fields, c) && (known.Some? ==> fields.Keys <= known.value)
    ensures r.Some? ==> r.value == Amounts(fields, c)
  {
    hide ToNumber, StrOf;
    var amounts: map<string, Decimal> := map[];
    var rest := fields.Keys;
    while rest != {}
      invariant rest <= fields.Keys && amounts.Keys == fields.Keys - rest
      invariant forall k <- amounts :: ToNumber(StrOf(fields[k], c)) == Some(amounts[k])
      invariant known.Some? ==> amounts.Keys <= known.value
      decreases |rest|
    {
      var k :| k in rest;
      var amount := ToNumber(StrOf(fields[k], c));
      if (known.Some? && k !in known.value) || amount.None? {
        return None;
      }
      amounts := amounts[k := amount.value];
      rest := rest - {k};
    }
    r := Some(amounts);
  }

  /** `_map_normalized_payload`: no payload for NULL, otherwise the mapped one. */
  method MapNormalizedPayload(stored: Option<Stored>, known: set<Metric>, c: Coercions)
    returns (r: Result<Option<Payload>, Error>)
    ensures r == match stored
                 case None => Ok(None)
                 case Some(fields) =>
                   match MapSpec(fields, known, c)
                   case Ok(p) => Ok(Some(p))
                   case Err(e) => Err(e)
  {
    if stored.None? {
      return Ok(None);
    }
    hide Scalars;
    var scalars := Scalars(stored.value, c);
    var core, extra := FieldsOf(stored.value, CORE_METRICS), FieldsOf(stored.value, EXTRA_METRICS);
    var dimensions := FieldsOf(stored.value, DIMENSIONS);
    if scalars.None? || core.None? || extra.None? || dimensions.None? {
      return Err(EdgarIngestionError);
    }
    var coreMetrics := ReadAmounts(core.value, Some(known), c);
    if coreMetrics.None? {
      return Err(EdgarIngestionError);
    }
    var extraMetrics := ReadAmounts(extra.value, None, c);
    if extraMetrics.None? {
      return Err(EdgarIngestionError);
    }
    var p := scalars.value.(
      coreMetrics := coreMetrics.value, extraMetrics := extraMetrics.value,
      dimensions := map k | k in dimensions.value :: StrOf(dimensions.value[k], c));
    if !Valid(p) {
      return Err(EdgarIngestionError);
    }
    r := Ok(Some(p));
  }

  // -------------------------------------------------------------------- round trip

  lemma AmountsRoundTrip(amounts: map<string, Decimal>, c: Coercions)
    ensures AmountsRead(AmountTexts(amounts), c)
    ensures AmountTexts(amounts).Keys == amounts.Keys
    ensures Amounts(AmountTexts(amounts), c) == amounts
  {
    hide ToNumber, ToScientific;
    forall k <- amounts
      ensures ToNumber(StrOf(AmountTexts(amounts)[k], c)) == Some(amounts[k])
    {
      ScientificRoundTrip(amounts[k]);
    }
  }

  lemma FieldsRoundTrip(p: Payload)
    ensures var stored := Serialize(p);
            && FieldsOf(stored, CORE_METRICS) == Some(AmountTexts(p.coreMetrics))
            && FieldsOf(stored, EXTRA_METRICS) == Some(AmountTexts(p.extraMetrics))
            && FieldsOf(stored, DIMENSIONS) == Some(map k | k in p.dimensions :: Text(p.dimensions[k]))
  {
    hide AmountTexts;
  }

  lemma ReadAsWritten(c: Coercions)
    ensures forall t :: StrOf(Text(t), c) == t
    ensures forall n :: IntOf(Number(n), c) == Some(n)
  {
  }

  lemma DateReads(d: Date, c: Coercions)
    requires Inverts(c.asDate)
    ensures DateOf(IsoFormat(d), c) == Some(d)
  {
  }

  lemma ScalarsRoundTrip(p: Payload, c: Coercions)
    requires Inverts(c.asDate)
    ensures Scalars(Serialize(p), c) == Some(p.(coreMetrics := map[], extraMetrics := map[], dimensions := map[]))
  {
    hide DateOf, Inverts, IsoFormat, ToStatementType, ToAccountingStandard, ToFiscalPeriod,
      StatementTypeCode, AccountingStandardCode, FiscalPeriodCode, AmountTexts, StrOf, IntOf;
    ReadAsWritten(c);
    DateReads(p.statementDate, c);
    EnumCodes(p.statementType, p.accountingStandard, p.fiscalPeriod);
  }

  /** A payload read back is the payload written, digit for digit: the mapping
      never fails on it and the constructor never rejects it, also when the
      reading version knows further metrics. */
  lemma PayloadRoundTrip(p: Payload, known: set<Metric>, c: Coercions)
    requires Valid(p) && p.coreMetrics.Keys <= known && Inverts(c.asDate)
    ensures MapSpec(Serialize(p), known, c) == Ok(p)
  {
    hide Scalars, Serialize, FieldsOf, Valid, AmountsRead, Amounts, AmountTexts;
    ScalarsRoundTrip(p, c);
    FieldsRoundTrip(p);
    AmountsRoundTrip(p.coreMetrics, c);
    AmountsRoundTrip(p.extraMetrics, c);
    var dimensions := map k | k in p.dimensions :: Text(p.dimensions[k]);
    assert (map k | k in dimensions :: StrOf(dimensions[k], c)) == p.dimensions;
  }

  /** The converse: a payload that was mapped is one the constructor accepts, its
      metrics are known ones, and writing it again and mapping that changes nothing. */
  lemma MappedPayloadIsStable(stored: Stored, known: set<Metric>, c: Coercions)
    requires MapSpec(stored, known, c).Ok? && Inverts(c.asDate)
    ensures var p := MapSpec(stored, known, c).value;
            Valid(p) && p.coreMetrics.Keys <= known && MapSpec(Serialize(p), known, c) == Ok(p)
  {
    hide Scalars, Serialize;
    PayloadRoundTrip(MapSpec(stored, known, c).value, known, c);
  }

  /** A stored metric the reading version does not know is an error, not a loss. */
  lemma UnknownMetricIsAnError(p: Payload, known: set<Metric>, c: Coercions)
    requires Valid(p) && Inverts(c.asDate)
    ensures MapSpec(Serialize(p), known, c).Ok? <==> p.coreMetrics.Keys <= known
  {
    hide Scalars, Serialize, FieldsOf, AmountsRead, AmountTexts;
    FieldsRoundTrip(p);
    AmountsRoundTrip(p.coreMetrics, c);
    if p.coreMetrics.Keys <= known {
      PayloadRoundTrip(p, known, c);
    }
  }

  /** An object with one text for each amount, which reads back to it. */
  predicate StoresAmounts(j: Json, amounts: map<string, Decimal>) {
    && j.Object? && j.fields.Keys == amounts.Keys
    && forall m <- amounts :: j.fields[m].Text? && ToNumber(j.fields[m].text) == Some(amounts[m])
  }

  lemma TextsStoreAmounts(amounts: map<string, Decimal>)
    ensures StoresAmounts(Object(AmountTexts(amounts)), amounts)
  {
    hide ToNumber, ToScientific;
    forall m <- amounts
      ensures ToNumber(ToScientific(amounts[m])) == Some(amounts[m])
    {
      ScientificRoundTrip(amounts[m]);
    }
  }

  /** The stored form, key by key: every text field under its own name, enumerations by
      their codes and the date in ISO form. */
  lemma StoredTexts(p: Payload)
    ensures var s := Serialize(p);
            && s[CIK] == Text(p.cik) && s[CURRENCY] == Text(p.currency)
            && s[SOURCE_ACCESSION_ID] == Text(p.sourceAccessionId) && s[SOURCE_TAXONOMY] == Text(p.sourceTaxonomy)
            && s[STATEMENT_DATE].Text? && FromIso(s[STATEMENT_DATE].text) == Some(p.statementDate)
  {
    hide AmountTexts, FromIso, IsoFormat, StatementTypeCode, AccountingStandardCode, FiscalPeriodCode;
    FormatReads(p.statementDate);
  }

  lemma StoredCodes(p: Payload)
    ensures var s := Serialize(p);
            && s[STATEMENT_TYPE] == Text(StatementTypeCode(p.statementType))
            && s[ACCOUNTING_STANDARD] == Text(AccountingStandardCode(p.accountingStandard))
            && s[FISCAL_PERIOD] == Text(FiscalPeriodCode(p.fiscalPeriod))
            && s[FISCAL_YEAR] == Number(p.fiscalYear) && s[UNIT_MULTIPLIER] == Number(p.unitMultiplier)
            && s[SOURCE_VERSION_SEQUENCE] == Number(p.sourceVersionSequence)
  {
    hide AmountTexts, IsoFormat, StatementTypeCode, AccountingStandardCode, FiscalPeriodCode;
  }

  /** And each collection as an object, amounts as texts that read back to them. */
  lemma StoredObjects(p: Payload)
    ensures var s := Serialize(p);
            && StoresAmounts(s[CORE_METRICS], p.coreMetrics) && StoresAmounts(s[EXTRA_METRICS], p.extraMetrics)
            && s[DIMENSIONS].Object? && s[DIMENSIONS].fields.Keys == p.dimensions.Keys
            && forall k <- p.dimensions :: s[DIMENSIONS].fields[k] == Text(p.dimensions[k])
  {
    hide StoresAmounts, AmountTexts, IsoFormat, StatementTypeCode, AccountingStandardCode, FiscalPeriodCode;
    TextsStoreAmounts(p.coreMetrics);
    TextsStoreAmounts(p.extraMetrics);
  }

  /** A text with a character that is no space. */
  predicate Filled(t: string) {
    exists i | 0 <= i < |t| :: !IsSpace(t[i])
  }

  lemma FilledIff(t: string)
    ensures Filled(t) <==> Strip(t) != ""
  {
    StripResult(t);
    hide IsSpace, Strip;
  }

  /** What a stored payload must meet to map, told from its fields: known metrics, a
      positive year and sequence, and four texts that are not blank. */
  lemma MapsIff(p: Payload, known: set<Metric>, c: Coercions)
    requires Inverts(c.asDate)
    ensures MapSpec(Serialize(p), known, c).Ok?
            <==> && p.coreMetrics.Keys <= known && p.fiscalYear > 0 && p.sourceVersionSequence > 0
                 && Filled(p.cik) && Filled(p.currency) && Filled(p.sourceAccessionId) && Filled(p.sourceTaxonomy)
  {
    FilledIff(p.cik);
    FilledIff(p.currency);
    FilledIff(p.sourceAccessionId);
    FilledIff(p.sourceTaxonomy);
    hide Filled, Strip, Scalars, Serialize, FieldsOf, AmountsRead, Amounts, AmountTexts;
    ScalarsRoundTrip(p, c);
    FieldsRoundTrip(p);
    AmountsRoundTrip(p.coreMetrics, c);
    AmountsRoundTrip(p.extraMetrics, c);
  }

  lemma ScalarsElsewhere(stored: Stored, key: Key, j: Json, c: Coercions)
    requires key in {CORE_METRICS, EXTRA_METRICS, DIMENSIONS}
    ensures Scalars(stored[key := j], c) == Scalars(stored, c)
  {
    hide DateOf, ToStatementType, ToAccountingStandard, ToFiscalPeriod, IntOf, StrOf;
  }

  /** A collection that is not stored maps as an empty one. */
  lemma MissingCollection(stored: Stored, key: Key, known: set<Metric>, c: Coercions)
    requires key !in stored && key in {CORE_METRICS, EXTRA_METRICS, DIMENSIONS}
    ensures MapSpec(stored, known, c) == MapSpec(stored[key := Object(map[])], known, c)
  {
    hide AmountsRead, Amounts, Construct, Scalars;
    ScalarsElsewhere(stored, key, Object(map[]), c);
  }

  /** Any other field must be there. */
  lemma MissingScalar(stored: Stored, key: Key, known: set<Metric>, c: Coercions)
    requires key !in stored && key !in {CORE_METRICS, EXTRA_METRICS, DIMENSIONS}
    ensures MapSpec(stored, known, c) == Err(EdgarIngestionError)
  {
    hide DateOf, ToStatementType, ToAccountingStandard, ToFiscalPeriod, IntOf, StrOf, AmountsRead, Amounts, Construct;
  }

  /** Two payloads with the same stored form are the same payload. */
  lemma SerializeInjective(p: Payload, q: Payload)
    requires Valid(p) && Valid(q) && Serialize(p) == Serialize(q)
    ensures p == q
  {
    hide Serialize, MapSpec;
    var c := Coercions(_ => "", _ => None, FromIso);
    FullDateInverts();
    PayloadRoundTrip(p, p.coreMetrics.Keys + q.coreMetrics.Keys, c);
    PayloadRoundTrip(q, p.coreMetrics.Keys + q.coreMetrics.Keys, c);
  }
}
