# Tour availability calendar: weekday catalogue and enumeration tables

This project models the two pieces of the tour availability calendar that
carry logic of their own:

- **The weekday catalogue** of `TourDecorator#week_days_by_name`. It is a Hash
  from the seven weekday symbols to their zero-based ordinals
  (`sunday => 0 … saturday => 6`). It is built by pairing a fixed symbol list
  with its indices and converting the pairs with `to_h`. The first call stores
  the result in the decorator's `@week_days_by_name` field, and later calls
  return the stored Hash.
- **The enumeration tables of `Tour`.** `RECURRENCE` holds `once` and
  `recurrence`. `END_OPTIONS` holds `never` and `on`.
  `REPEATING_INTERVAL_UNITS` holds `day`, `month`, `week` and `year`. Each
  table maps a symbol to the string token stored in the `tours` table. The
  column defaults of a new tour row (`recurrence` "once",
  `recurring_end_value` "never") are built from these tables.

Layout:

- `ruby_hash.dfy` (module `RubyHash`) models the part of Ruby's
  insertion-ordered Hash behind the two pieces. The tables are read with
  `[]`, `key` and `values`. The catalogue is built with `Array#to_h`, which
  stores the pairs one by one with `[]=`. The decorator's spec reads the
  catalogue with `keys` and `Array#index`. `nil` is `None`. A symbol is
  modelled by its name.
- `tour_model.dfy` (module `TourModel`) has one datatype per table, for the
  table's keys. Encoding is the table lookup `TABLE[key]`. Decoding is
  `TABLE.key(token)`, the first key that holds the token, which is then read
  back as a variant. The module also holds the column defaults.
- `tour_decorator.dfy` (module `TourDecorators`) holds the pure catalogue
  (`WeekDaysHash`) and the properties proved about it. The class
  `TourDecorator` has the optional memo field, and its method `WeekDaysByName`
  fills that field the way `||=` does.

Where the code and the tests around it disagree, the model follows the code:

- The table's key is `:recurrence`. The model specs look up
  `RECURRENCE[:recurring]` (spec/models/tour_spec.rb:69), which is `nil` here.
  `RecurringIsNotAKey` states this.
- Likewise `REPEATING_INTERVAL_UNITS[:monthly]` (spec/models/tour_spec.rb:129)
  is `nil`. `MonthlyIsNotAKey` states this.
- The tokens of the recurrence mode are `"once"` and `"recurrence"`. The specs
  use `:recurring` only as a key (spec/models/tour_spec.rb:69, 174), and no
  file of the repository gives `"recurring"` as a token.

## Model

| member | source | states |
|---|---|---|
| RubyHash.Keys | spec/decorators/tour_decorator_spec.rb:13 | `keys` lists one key per entry, in insertion order: key i is the key of entry i |
| RubyHash.Values | app/models/tour.rb:7-22 | `values` lists one value per entry, in insertion order: value i is the value of entry i |
| RubyHash.Get | db/migrate/20200315150824_create_tours.rb:10-12 | `h[k]` is nil exactly when `k` is not a key; otherwise `(k, h[k])` is an entry of `h` |
| RubyHash.Key | app/models/tour.rb:32-33 | `h.key(v)` is nil exactly when no entry has value `v`; otherwise it is the key of the first entry whose value is `v` |
| RubyHash.Store | app/decorators/tour_decorator.rb:5 | `h[k] = v` keeps the key order: an existing key stays in place, and a new key is appended at the end |
| RubyHash.StoreThenGet | app/decorators/tour_decorator.rb:5 | after `h[k] = v`, `k` looks up `v` and every other key looks up what it looked up before |
| RubyHash.StoreNewKey | app/decorators/tour_decorator.rb:5 | storing a key that is not present appends exactly that entry |
| RubyHash.ToH | app/decorators/tour_decorator.rb:5 | `to_h` gives a Hash whose keys are pairwise distinct |
| RubyHash.ToHKeySet | app/decorators/tour_decorator.rb:5 | a symbol is a key of `pairs.to_h` exactly when it is the key of some pair |
| RubyHash.ToHLastValueWins | app/decorators/tour_decorator.rb:5 | in `pairs.to_h` a key looks up the value of the last pair with that key |
| RubyHash.ToHKeyOrder | app/decorators/tour_decorator.rb:5 | the keys of `pairs.to_h` come in the order of their first occurrence among the pairs |
| RubyHash.ToHOfDistinctKeys | app/decorators/tour_decorator.rb:5 | when the keys of the pairs are pairwise distinct, `to_h` keeps every pair, in order |
| RubyHash.GetOfDistinctKeys | app/decorators/tour_decorator.rb:3-5 | in a Hash with distinct keys, each entry's key looks up that entry's value |
| RubyHash.KeyOfDistinctValues | app/models/tour.rb:7-22 | in a Hash with distinct values, `key` of each entry's value returns that entry's key |
| RubyHash.IndexOf | spec/decorators/tour_decorator_spec.rb:13-15 | `index` is nil exactly when the element is absent; otherwise it is the position of the first occurrence |
| RubyHash.IndexOfAppend | spec/decorators/tour_decorator_spec.rb:13-15 | appending an element does not move the first occurrence of an element already present |
| RubyHash.IndexOfDistinct | spec/decorators/tour_decorator_spec.rb:13-15 | in a list without repetitions, `index` of the element at position i is i |
| TourModel.EncodeRecurrence | app/models/tour.rb:7-10 | the token of a recurrence kind is `RECURRENCE[its symbol]`, and it is spelled like the symbol |
| TourModel.DecodeRecurrence | app/models/tour.rb:7-10 | decoding succeeds exactly for the tokens in `RECURRENCE`, and the kind found encodes back to the token |
| TourModel.RecurrenceTable | app/models/tour.rb:7-10 | the constant `TourModel.RECURRENCE` has exactly the keys once and recurrence, in that order, with tokens "once" and "recurrence"; a symbol is a key exactly when it names a kind |
| TourModel.RecurrenceTokensDistinct | app/models/tour.rb:7-10 | the tokens of `RECURRENCE` are pairwise distinct, so encoding is injective |
| TourModel.RecurrenceRoundTrip | app/models/tour.rb:7-10 | decoding the token of a kind gives the kind back |
| TourModel.RecurringIsNotAKey | app/models/tour.rb:7-10 | `RECURRENCE[:recurring]` is nil |
| TourModel.EncodeEndOption | app/models/tour.rb:12-15 | the token of an end option is `END_OPTIONS[its symbol]`, and it is spelled like the symbol |
| TourModel.DecodeEndOption | app/models/tour.rb:12-15 | decoding succeeds exactly for the tokens in `END_OPTIONS`, and the option found encodes back to the token |
| TourModel.EndOptionsTable | app/models/tour.rb:12-15 | the constant `TourModel.END_OPTIONS` has exactly the keys never and on, in that order, with tokens "never" and "on"; a symbol is a key exactly when it names an option |
| TourModel.EndOptionTokensDistinct | app/models/tour.rb:12-15 | the tokens of `END_OPTIONS` are pairwise distinct, so encoding is injective |
| TourModel.EndOptionRoundTrip | app/models/tour.rb:12-15 | decoding the token of an end option gives the option back |
| TourModel.EncodeIntervalUnit | app/models/tour.rb:17-22 | the token of an interval unit is `REPEATING_INTERVAL_UNITS[its symbol]`, and it is spelled like the symbol |
| TourModel.DecodeIntervalUnit | app/models/tour.rb:17-22 | decoding succeeds exactly for the tokens in `REPEATING_INTERVAL_UNITS`, and the unit found encodes back to the token |
| TourModel.IntervalUnitsTable | app/models/tour.rb:17-22 | the constant `TourModel.REPEATING_INTERVAL_UNITS` has exactly day, month, week and year, in that order, each with a token spelled like its key; a symbol is a key exactly when it names a unit |
| TourModel.IntervalUnitTokensDistinct | app/models/tour.rb:17-22 | the interval-unit tokens are pairwise distinct, so encoding is injective |
| TourModel.IntervalUnitRoundTrip | app/models/tour.rb:17-22 | decoding the token of an interval unit gives the unit back |
| TourModel.MonthlyIsNotAKey | app/models/tour.rb:17-22 | `REPEATING_INTERVAL_UNITS[:monthly]` is nil |
| TourModel.NewTourDefaults | app/models/tour.rb:66-69 | a new row is not full-day and has interval value 0; its recurrence is "once", which decodes to `once`; its end value is "never", which decodes to `never` |
| TourDecorators.WithIndex | app/decorators/tour_decorator.rb:5 | `map.with_index` pairs each element with its position, counted from the start index, and keeps the length |
| TourDecorators.WeekDaysHash | app/decorators/tour_decorator.rb:5 | the catalogue built from the seven names has pairwise distinct keys, and a symbol is a key exactly when it is one of the seven names |
| TourDecorators.WeekDayNamesDistinct | app/decorators/tour_decorator.rb:5 | the seven weekday symbols are pairwise different |
| TourDecorators.WeekDaysHashEntries | app/decorators/tour_decorator.rb:3-5 | the catalogue has exactly 7 entries, and entry i is (weekday name i, i) |
| TourDecorators.WeekDaysKeys | spec/decorators/tour_decorator_spec.rb:12-13 | `week_days_by_name.keys` is sunday … saturday, in that order |
| TourDecorators.WeekDaysKeyOrder | spec/decorators/tour_decorator_spec.rb:11-15 | every name has the same index among the keys as in the week, weekday i is at index i, and sunday is at 0 |
| TourDecorators.WeekDayOrdinals | app/decorators/tour_decorator.rb:3-5 | each weekday name maps to its zero-based position (sunday 0 … saturday 6), and any other symbol maps to nil |
| TourDecorators.WeekDayValues | app/decorators/tour_decorator.rb:3-5 | the values are 0 … 6 in order, each once; a value is present exactly when it is in 0..6 |
| TourDecorators.WeekDayOfOrdinal | app/decorators/tour_decorator.rb:3-5 | `key` of ordinal v is weekday v for v in 0..6, and nil for any other value |
| TourDecorators.WeekDayOrdinalsInjective | app/decorators/tour_decorator.rb:3-5 | two symbols that look up the same ordinal are the same symbol |
| TourDecorators.TourDecorator.constructor | app/decorators/tour_decorator.rb:1 | a new decorator starts with no memo |
| TourDecorators.TourDecorator.WeekDaysByName | app/decorators/tour_decorator.rb:4-6 | the first call builds the catalogue and stores it in the memo; a later call returns the stored Hash and leaves the memo unchanged; from a valid memo the result is always the catalogue |
| TourDecorators.RepeatedCalls | app/decorators/tour_decorator.rb:5 | two calls on one decorator return equal Hashes; from a valid memo both are the catalogue |

## Left out

- The recurrence resolver is not modelled. This covers full-day
  normalisation, validations, trigger dispatch, weekday and month-day
  defaulting, the `recurring_wdays=` setter, `never_ending?` and the
  `next_tours` scope. The model specs exercise these, but `Tour` defines
  none of them: its validation, callback and method sections
  (app/models/tour.rb:41-51) are empty. The constants those specs use
  (`RECURRING_OPTIONS`, `WEEK_DAYS_RANGE`) are not defined either.
- Rails `enum` machinery (app/models/tour.rb:32-33) is not modelled. This
  covers predicate methods, scopes and column binding, which are framework
  behaviour. Decoding a stored token is modelled as `Hash#key` on the table.
  The interval-unit enum attribute is named `repeating` in the code.
- `SimpleDelegator` forwarding to the wrapped tour is not modelled, because
  it is library behaviour. The decorator holds only its memo field.
- The controller (app/controllers/tours_controller.rb) is HTTP and JSON
  plumbing and is not modelled.
- The migration's DDL is not modelled. It serves only as a citation for the
  defaults. The migration creates `recurring_interval_value` as a string
  column with default 0, while the schema comment in app/models/tour.rb
  records an integer column with default 0. `NewTourDefaults` follows the
  schema comment.
- Symbols and strings are not told apart. Keys are modelled by their
  names, so looking up the string "monday" where Ruby would need `:monday`
  is not distinguished.
- `RECURRENCE` is not frozen in the code, unlike the other two tables.
  Nothing mutates it, so the model treats all three as constants.
- TourDecorators.TourDecorator.WeekDaysByName: `||=` also recomputes when
  the field holds `false`. The memo is modelled as nil-or-Hash, so that case
  does not arise. The model also drops aliasing. In Ruby the returned Hash is
  the very object held in `@week_days_by_name`, and it is not frozen. A caller
  can change it in place (`week_days_by_name.delete(:sunday)`), and every
  later call then returns the changed Hash. The model returns the Hash as a
  value, so `Valid()` and "from a valid memo the result is the catalogue"
  hold only because no caller can change the memo through the result.
