/**
 * `formatWorkOrderData`: the record with `address` trimmed and `date`
 * reduced to its calendar day, both "" when missing or empty.
 */
module Formatter {
  import opened Wrappers
  import opened Text
  import opened Js

  /** The message of the RangeError `toISOString` throws on an invalid date. */
  const InvalidTime := "Invalid time value"

  /** `new Date(d).toISOString()`: the ISO form of a parseable date, or
      None for a date the engine cannot parse. */
  type IsoDate = string -> Option<string>

  function FormatWorkOrderData(raw: Object, toIso: IsoDate): (r: Result<Object, string>)
    ensures r.Err? <==> Truthy(Get(raw, "date")) && toIso(Get(raw, "date").s).None?
    ensures r.Err? ==> r.error == InvalidTime
    ensures r.Ok? ==> r.value.Keys == raw.Keys + {"address", "date"}
    ensures r.Ok? ==> forall k :: k in raw && k != "address" && k != "date" ==> r.value[k] == raw[k]
    ensures r.Ok? ==> r.value["address"].Str? && IsTrimmed(r.value["address"].s)
    ensures r.Ok? ==> r.value["date"].Str? && 'T' !in r.value["date"].s
  {
    var address := if Truthy(Get(raw, "address")) then Trim(Get(raw, "address").s) else "";
    var date := Get(raw, "date");
    if Truthy(date) then
      match toIso(date.s)
      case None => Err(InvalidTime)
      case Some(iso) => Ok(raw["address" := Str(address)]["date" := Str(BeforeFirst(iso, 'T'))])
    else Ok(raw["address" := Str(address)]["date" := Str("")])
  }

  /** The address is the trimmed original, or "" when it was missing or
      empty; the date is the day part of the ISO form of a given date, and
      "" without one. */
  lemma FormattedValues(raw: Object, toIso: IsoDate)
    ensures var r := FormatWorkOrderData(raw, toIso);
            r.Ok? ==>
              && r.value["address"] == Str(if Truthy(Get(raw, "address")) then Trim(Get(raw, "address").s) else "")
              && (!Truthy(Get(raw, "date")) ==> r.value["date"] == Str(""))
              && (Truthy(Get(raw, "date")) ==>
                    var iso := toIso(Get(raw, "date").s).value;
                    && r.value["date"].s <= iso
                    && (|r.value["date"].s| < |iso| ==> iso[|r.value["date"].s|] == 'T'))
  {
  }

  /** Formatting a formatted record again changes nothing, as long as the
      day it produced reads back as the same day. */
  lemma FormatIdempotent(raw: Object, toIso: IsoDate)
    requires FormatWorkOrderData(raw, toIso).Ok?
    requires var day := FormatWorkOrderData(raw, toIso).value["date"].s;
             day != "" ==> toIso(day).Some? && BeforeFirst(toIso(day).value, 'T') == day
    ensures FormatWorkOrderData(FormatWorkOrderData(raw, toIso).value, toIso) == FormatWorkOrderData(raw, toIso)
  {
    var once := FormatWorkOrderData(raw, toIso).value;
    var address := once["address"].s;
    if address != "" {
      TrimTrimmed(address);
    }
    var day := once["date"].s;
    var twice := once["address" := Str(address)]["date" := Str(day)];
    assert FormatWorkOrderData(once, toIso) == Ok(twice);
    assert twice == once;
  }
}
