/**
 * The constant tables of the Tour model: the recurrence modes, the end
 * options and the repeating interval units. Each table is a Hash from a
 * symbol to the string token stored in the tours table; each set of keys is
 * modelled as a datatype with an encoding (the table lookup) and a partial
 * decoding (the key a stored token belongs to). The column defaults a new
 * tour row starts with are built from these tables.
 */
module TourModel {
  import opened RubyHash

  // ---------------------------------------------------------------------
  // RECURRENCE
  // ---------------------------------------------------------------------

  /** The keys of `Tour::RECURRENCE`: a one-off tour or a repeating one. */
  datatype RecurrenceKind = Once | Recurrence

  /** `Tour::RECURRENCE`, in its literal order. */
  const RECURRENCE: Hash<Symbol, string> := [("once", "once"), ("recurrence", "recurrence")]

  /** The symbol that names a recurrence kind. */
  function RecurrenceSymbol(m: RecurrenceKind): (s: Symbol)
  {
    match m
    case Once => "once"
    case Recurrence => "recurrence"
  }

  /** The recurrence kind a symbol names, or nil for any other symbol. */
  function RecurrenceOfSymbol(s: Symbol): (r: Option<RecurrenceKind>)
    ensures r.Some? ==> RecurrenceSymbol(r.value) == s
    ensures r.None? ==> forall m :: RecurrenceSymbol(m) != s
  {
    if s == "once" then Some(Once)
    else if s == "recurrence" then Some(Recurrence)
    else None
  }

  /** The token stored for a recurrence kind: `RECURRENCE[symbol]`. */
  function EncodeRecurrence(m: RecurrenceKind): (token: string)
    ensures Get(RECURRENCE, RecurrenceSymbol(m)) == Some(token)
    ensures token == RecurrenceSymbol(m)
  {
    Get(RECURRENCE, RecurrenceSymbol(m)).value
  }

  /** The recurrence kind a stored token stands for (`RECURRENCE.key(token)`), or nil. */
  function DecodeRecurrence(token: string): (r: Option<RecurrenceKind>)
    ensures r.Some? <==> token in Values(RECURRENCE)
    ensures r.Some? ==> EncodeRecurrence(r.value) == token
  {
    match Key(RECURRENCE, token)
    case None => None
    case Some(s) => RecurrenceOfSymbol(s)
  }

  /** RECURRENCE holds exactly once => "once" and recurrence => "recurrence", in that order. */
  lemma RecurrenceTable()
    ensures Keys(RECURRENCE) == ["once", "recurrence"]
    ensures Values(RECURRENCE) == ["once", "recurrence"]
    ensures forall s :: Get(RECURRENCE, s).Some? <==> RecurrenceOfSymbol(s).Some?
  {
  }

  /** Different recurrence kinds are stored as different tokens. */
  lemma RecurrenceTokensDistinct()
    ensures Distinct(Values(RECURRENCE))
    ensures forall m, n :: EncodeRecurrence(m) == EncodeRecurrence(n) ==> m == n
  {
  }

  /** Decoding the token of a recurrence kind gives that kind back. */
  lemma RecurrenceRoundTrip(m: RecurrenceKind)
    ensures DecodeRecurrence(EncodeRecurrence(m)) == Some(m)
  {
  }

  /** `RECURRENCE[:recurring]` is nil: the table's key is `:recurrence`. */
  lemma RecurringIsNotAKey()
    ensures Get(RECURRENCE, "recurring") == None
  {
  }

  // ---------------------------------------------------------------------
  // END_OPTIONS
  // ---------------------------------------------------------------------

  /** The keys of `Tour::END_OPTIONS`: a repeating tour never ends, or ends on a date. */
  datatype EndOption = Never | On

  /** `Tour::END_OPTIONS`, in its literal order. */
  const END_OPTIONS: Hash<Symbol, string> := [("never", "never"), ("on", "on")]

  /** The symbol that names an end option. */
  function EndOptionSymbol(e: EndOption): (s: Symbol)
  {
    match e
    case Never => "never"
    case On => "on"
  }

  /** The end option a symbol names, or nil for any other symbol. */
  function EndOptionOfSymbol(s: Symbol): (r: Option<EndOption>)
    ensures r.Some? ==> EndOptionSymbol(r.value) == s
    ensures r.None? ==> forall e :: EndOptionSymbol(e) != s
  {
    if s == "never" then Some(Never)
    else if s == "on" then Some(On)
    else None
  }

  /** The token stored for an end option: `END_OPTIONS[symbol]`. */
  function EncodeEndOption(e: EndOption): (token: string)
    ensures Get(END_OPTIONS, EndOptionSymbol(e)) == Some(token)
    ensures token == EndOptionSymbol(e)
  {
    Get(END_OPTIONS, EndOptionSymbol(e)).value
  }

  /** The end option a stored token stands for (`END_OPTIONS.key(token)`), or nil. */
  function DecodeEndOption(token: string): (r: Option<EndOption>)
    ensures r.Some? <==> token in Values(END_OPTIONS)
    ensures r.Some? ==> EncodeEndOption(r.value) == token
  {
    match Key(END_OPTIONS, token)
    case None => None
    case Some(s) => EndOptionOfSymbol(s)
  }

  /** END_OPTIONS holds exactly never => "never" and on => "on", in that order. */
  lemma EndOptionsTable()
    ensures Keys(END_OPTIONS) == ["never", "on"]
    ensures Values(END_OPTIONS) == ["never", "on"]
    ensures forall s :: Get(END_OPTIONS, s).Some? <==> EndOptionOfSymbol(s).Some?
  {
  }

  /** Different end options are stored as different tokens. */
  lemma EndOptionTokensDistinct()
    ensures Distinct(Values(END_OPTIONS))
    ensures forall e, f :: EncodeEndOption(e) == EncodeEndOption(f) ==> e == f
  {
  }

  /** Decoding the token of an end option gives that option back. */
  lemma EndOptionRoundTrip(e: EndOption)
    ensures DecodeEndOption(EncodeEndOption(e)) == Some(e)
  {
  }

  // ---------------------------------------------------------------------
  // REPEATING_INTERVAL_UNITS
  // ---------------------------------------------------------------------

  /** The keys of `Tour::REPEATING_INTERVAL_UNITS`. */
  datatype IntervalUnit = Day | Month | Week | Year

  /** `Tour::REPEATING_INTERVAL_UNITS`, in its literal order. */
  const REPEATING_INTERVAL_UNITS: Hash<Symbol, string> :=
    [("day", "day"), ("month", "month"), ("week", "week"), ("year", "year")]

  /** The symbol that names an interval unit. */
  function IntervalUnitSymbol(u: IntervalUnit): (s: Symbol)
  {
    match u
    case Day => "day"
    case Month => "month"
    case Week => "week"
    case Year => "year"
  }

  /** The interval unit a symbol names, or nil for any other symbol. */
  function IntervalUnitOfSymbol(s: Symbol): (r: Option<IntervalUnit>)
    ensures r.Some? ==> IntervalUnitSymbol(r.value) == s
    ensures r.None? ==> forall u :: IntervalUnitSymbol(u) != s
  {
    if s == "day" then Some(Day)
    else if s == "month" then Some(Month)
    else if s == "week" then Some(Week)
    else if s == "year" then Some(Year)
    else None
  }

  /** The token stored for an interval unit: `REPEATING_INTERVAL_UNITS[symbol]`. */
  function EncodeIntervalUnit(u: IntervalUnit): (token: string)
    ensures Get(REPEATING_INTERVAL_UNITS, IntervalUnitSymbol(u)) == Some(token)
    ensures token == IntervalUnitSymbol(u)
  {
    Get(REPEATING_INTERVAL_UNITS, IntervalUnitSymbol(u)).value
  }

  /** The interval unit a stored token stands for (`REPEATING_INTERVAL_UNITS.key(token)`), or nil. */
  function DecodeIntervalUnit(token: string): (r: Option<IntervalUnit>)
    ensures r.Some? <==> token in Values(REPEATING_INTERVAL_UNITS)
    ensures r.Some? ==> EncodeIntervalUnit(r.value) == token
  {
    match Key(REPEATING_INTERVAL_UNITS, token)
    case None => None
    case Some(s) => IntervalUnitOfSymbol(s)
  }

  /** REPEATING_INTERVAL_UNITS holds exactly day, month, week and year, in that order, each spelled like its key. */
  lemma IntervalUnitsTable()
    ensures Keys(REPEATING_INTERVAL_UNITS) == ["day", "month", "week", "year"]
    ensures Values(REPEATING_INTERVAL_UNITS) == ["day", "month", "week", "year"]
    ensures forall s :: Get(REPEATING_INTERVAL_UNITS, s).Some? <==> IntervalUnitOfSymbol(s).Some?
  {
  }

  /** Different interval units are stored as different tokens. */
  lemma IntervalUnitTokensDistinct()
    ensures Distinct(Values(REPEATING_INTERVAL_UNITS))
    ensures forall u, w :: EncodeIntervalUnit(u) == EncodeIntervalUnit(w) ==> u == w
  {
  }

  /** Decoding the token of an interval unit gives that unit back. */
  lemma IntervalUnitRoundTrip(u: IntervalUnit)
    ensures DecodeIntervalUnit(EncodeIntervalUnit(u)) == Some(u)
  {
    var i := match u case Day => 0 case Month => 1 case Week => 2 case Year => 3;
    assert REPEATING_INTERVAL_UNITS[i] == (IntervalUnitSymbol(u), EncodeIntervalUnit(u));
    IntervalUnitTokensDistinct();
    KeyOfDistinctValues(REPEATING_INTERVAL_UNITS, i);
  }

  /** `REPEATING_INTERVAL_UNITS[:monthly]` is nil: the table's key is `:month`. */
  lemma MonthlyIsNotAKey()
    ensures Get(REPEATING_INTERVAL_UNITS, "monthly") == None
  {
  }

  // ---------------------------------------------------------------------
  // Column defaults
  // ---------------------------------------------------------------------

  /** The columns of a tours row that the schema gives a default. */
  datatype ColumnDefaults = ColumnDefaults(
    fullDay: bool,
    recurrence: string,
    recurringEndValue: string,
    recurringIntervalValue: int)

  /**
   * The defaults of a new tours row: not full-day, a one-off tour
   * (`RECURRENCE[:once]`) that never ends (`END_OPTIONS[:never]`), with
   * interval value 0.
   */
  function NewTourDefaults(): (d: ColumnDefaults)
    ensures !d.fullDay && d.recurringIntervalValue == 0
    ensures d.recurrence == "once" && DecodeRecurrence(d.recurrence) == Some(Once)
    ensures d.recurringEndValue == "never" && DecodeEndOption(d.recurringEndValue) == Some(Never)
  {
    ColumnDefaults(false, EncodeRecurrence(Once), EncodeEndOption(Never), 0)
  }
}
