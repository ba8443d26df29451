/** The fields read from a job page's JSON-LD `JobPosting` object
    (glassdoorcrawler/scraper.py, `_extract_location_from_job_posting` and
    `_extract_salary_fields_from_job_posting`). Output cells are JSON values,
    formatted text, or the missing value NaN. */
module JobPosting {
  import opened Wrappers
  import opened Text
  import opened FirstSeen
  import opened Json

  /** A cell of the output row; `Missing` is NaN. */
  datatype Cell = Missing | Value(json: Json) | Formatted(text: string)

  /** The non-empty strings of `parts`, in order. */
  function NonEmptyParts(parts: seq<string>): (r: seq<string>)
    ensures forall p :: p in r <==> p in parts && p != ""
  {
    if parts == [] then []
    else (if parts[0] == "" then [] else [parts[0]]) + NonEmptyParts(parts[1..])
  }

  /** `str(address.get(key, "")).strip()`. */
  function AddressPart(address: seq<Field>, key: string): string {
    Strip(Str(GetOr(address, key, JString(""))))
  }

  /** The locality and the region, each stripped, the non-empty ones joined
      by ", ". */
  function AddressLine(address: seq<Field>): string {
    JoinParts(AddressPart(address, "addressLocality"), AddressPart(address, "addressRegion"))
  }

  /** `", ".join(part for part in [locality, region] if part)`. */
  function JoinParts(locality: string, region: string): string {
    Join(", ", NonEmptyParts([locality, region]))
  }

  /** The line one location item contributes: none when it is not a
      dictionary, its `address` is not a dictionary, or the line is empty. */
  function ItemLine(item: Json): Option<string> {
    if !item.JObject? then None
    else
      var address := GetOr(item.fields, "address", JObject([]));
      if !address.JObject? then None
      else
        var line := AddressLine(address.fields);
        if line == "" then None else Some(line)
  }

  /** A line, when an item gives one, is never empty. */
  lemma ItemLineNonEmpty(item: Json)
    ensures ItemLine(item).Some? ==> ItemLine(item).value != ""
  {
  }

  /** The line of each item, in order. */
  function ItemLines(items: seq<Json>): (r: seq<Option<string>>)
    ensures |r| == |items| && forall k :: 0 <= k < |items| ==> r[k] == ItemLine(items[k])
  {
    seq(|items|, k requires 0 <= k < |items| => ItemLine(items[k]))
  }

  /** The present values, in order. */
  function Present(opts: seq<Option<string>>): seq<string> {
    if opts == [] then []
    else
      var n := |opts| - 1;
      Present(opts[..n]) + (if opts[n].Some? then [opts[n].value] else [])
  }

  /** One more entry adds its value, if any, at the end. */
  lemma PresentStep(opts: seq<Option<string>>, i: nat)
    requires i < |opts|
    ensures Present(opts[..i + 1]) == Present(opts[..i]) + (if opts[i].Some? then [opts[i].value] else [])
  {
    assert opts[..i + 1][..i] == opts[..i];
  }

  lemma {:induction false} PresentMembers(opts: seq<Option<string>>, x: string)
    ensures x in Present(opts) <==> Some(x) in opts
  {
    if opts != [] {
      var n := |opts| - 1;
      PresentMembers(opts[..n], x);
      assert opts == opts[..n] + [opts[n]];
    }
  }

  lemma {:induction false} PresentAppend(xs: seq<Option<string>>, ys: seq<Option<string>>)
    ensures Present(xs + ys) == Present(xs) + Present(ys)
    decreases |ys|
  {
    if ys != [] {
      var n := |ys| - 1;
      assert (xs + ys)[..|xs + ys| - 1] == xs + ys[..n];
      PresentAppend(xs, ys[..n]);
    } else {
      assert xs + ys == xs;
    }
  }

  /** The lines of the items, in order (`formatted_locations`). */
  function LocationLines(items: seq<Json>): seq<string> {
    Present(ItemLines(items))
  }

  /** A list is taken item by item; any other value is one item. */
  function LocationItems(location: Json): seq<Json> {
    if location.JArray? then location.items else [location]
  }

  /** `_extract_location_from_job_posting`: NaN when `jobLocation` is falsy or
      no item gives a line; otherwise the distinct lines, first occurrences
      kept, joined by " | ". */
  function Location(posting: seq<Field>): Option<string> {
    LocationOf(GetOr(posting, "jobLocation", JNull))
  }

  /** The location read from a `jobLocation` value. */
  function LocationOf(location: Json): Option<string> {
    if !Truthy(location) then None
    else
      var lines := LocationLines(LocationItems(location));
      if lines == [] then None else Some(Join(" | ", Dedup(lines)))
  }

  /** A line is collected exactly when some item gives it, and no collected
      line is empty. */
  lemma LocationLinesMembers(items: seq<Json>, line: string)
    ensures line in LocationLines(items) <==> exists k :: 0 <= k < |items| && ItemLine(items[k]) == Some(line)
    ensures line in LocationLines(items) ==> line != ""
  {
    var opts := ItemLines(items);
    PresentMembers(opts, line);
    if line in LocationLines(items) {
      var k :| 0 <= k < |opts| && opts[k] == Some(line);
      ItemLineNonEmpty(items[k]);
    }
  }

  lemma LocationLinesAppend(xs: seq<Json>, ys: seq<Json>)
    ensures LocationLines(xs + ys) == LocationLines(xs) + LocationLines(ys)
  {
    assert ItemLines(xs + ys) == ItemLines(xs) + ItemLines(ys);
    PresentAppend(ItemLines(xs), ItemLines(ys));
  }

  /** The location is NaN exactly when the value is falsy or no item gives a
      line. */
  lemma LocationOfNone(location: Json)
    ensures var items := LocationItems(location);
            LocationOf(location) == None <==>
              !Truthy(location) || forall k :: 0 <= k < |items| ==> ItemLine(items[k]) == None
  {
    var items := LocationItems(location);
    if Truthy(location) {
      var lines := LocationLines(items);
      if lines != [] {
        LocationLinesMembers(items, lines[0]);
      } else {
        forall k | 0 <= k < |items| ensures ItemLine(items[k]) == None {
          if ItemLine(items[k]).Some? {
            LocationLinesMembers(items, ItemLine(items[k]).value);
          }
        }
      }
    }
  }

  /** Every item's line occurs in the location. */
  lemma LocationOfContainsLine(location: Json, k: nat)
    requires LocationOf(location).Some?
    requires k < |LocationItems(location)| && ItemLine(LocationItems(location)[k]).Some?
    ensures Contains(LocationOf(location).value, ItemLine(LocationItems(location)[k]).value)
  {
    var items := LocationItems(location);
    var unique := Dedup(LocationLines(items));
    var line := ItemLine(items[k]).value;
    LocationLinesMembers(items, line);
    var i :| 0 <= i < |unique| && unique[i] == line;
    JoinContainsPart(" | ", unique, i);
  }

  /** A location, when there is one, is not empty. */
  lemma LocationOfNonEmpty(location: Json)
    ensures LocationOf(location).Some? ==> LocationOf(location).value != ""
  {
    if LocationOf(location).Some? {
      var items := LocationItems(location);
      var unique := Dedup(LocationLines(items));
      LocationLinesMembers(items, unique[0]);
      JoinContainsPart(" | ", unique, 0);
      ContainsNonEmpty(Join(" | ", unique), unique[0]);
    }
  }

  /** The location is NaN exactly when `jobLocation` is falsy or no item gives
      a line; otherwise it is not empty, every item's line occurs in it, and
      it is the " | "-join of a list `u` of lines that holds each item's line
      exactly once, nothing else, in the order the lines first occur. */
  lemma LocationSpec(posting: seq<Field>)
    ensures var location := GetOr(posting, "jobLocation", JNull);
            var items := LocationItems(location);
            (Location(posting) == None <==>
               !Truthy(location) || forall k :: 0 <= k < |items| ==> ItemLine(items[k]) == None) &&
            (Location(posting).Some? ==>
               Location(posting).value != "" &&
               forall k :: 0 <= k < |items| && ItemLine(items[k]).Some? ==>
                 Contains(Location(posting).value, ItemLine(items[k]).value))
    ensures var location := GetOr(posting, "jobLocation", JNull);
            var items := LocationItems(location);
            var lines := LocationLines(items);
            var u := Dedup(lines);
            Location(posting).Some? ==>
              Location(posting).value == Join(" | ", u) && NoDups(u) &&
              (forall line :: line in u <==> exists k :: 0 <= k < |items| && ItemLine(items[k]) == Some(line)) &&
              (forall i, j :: 0 <= i < j < |u| ==> FirstIndex(lines, u[i]) < FirstIndex(lines, u[j]))
  {
    var location := GetOr(posting, "jobLocation", JNull);
    var items := LocationItems(location);
    LocationOfNone(location);
    LocationOfNonEmpty(location);
    DedupKeepsFirstOccurrenceOrder(LocationLines(items));
    forall line | true
      ensures line in Dedup(LocationLines(items)) <==>
              exists k :: 0 <= k < |items| && ItemLine(items[k]) == Some(line)
    {
      LocationLinesMembers(items, line);
    }
    if LocationOf(location).Some? {
      forall k | 0 <= k < |LocationItems(location)| && ItemLine(LocationItems(location)[k]).Some?
        ensures Contains(LocationOf(location).value, ItemLine(LocationItems(location)[k]).value)
      {
        LocationOfContainsLine(location, k);
      }
    }
  }

  lemma StrOfNull()
    ensures Str(JNull) == "None"
  {
  }

  lemma AddressKeysDiffer()
    ensures "addressLocality" != "addressRegion"
  {
    assert "addressLocality"[7] != "addressRegion"[7];
  }

  lemma ContainsNonEmpty(s: string, sub: string)
    requires Contains(s, sub) && sub != ""
    ensures s != ""
  {
    ContainsIffOccurs(s, sub);
  }

  /** An empty dictionary gives no line. */
  lemma EmptyItemHasNoLine()
    ensures ItemLine(JObject([])) == None
  {
    EmptyAddressLine();
    assert GetOr([], "address", JObject([])) == JObject([]);
  }

  /** An empty address gives an empty line. */
  lemma EmptyAddressLine()
    ensures AddressLine([]) == ""
  {
    StripUnchanged("");
    assert Str(JString("")) == "";
    assert AddressPart([], "addressLocality") == "";
    assert AddressPart([], "addressRegion") == "";
    assert NonEmptyParts(["", ""]) == [];
  }

  /** A list holding only an item without a line gives no location. */
  lemma ListOfLinelessItem(item: Json)
    requires ItemLine(item).None?
    ensures LocationOf(JArray([item])) == None
  {
    assert ItemLines([item]) == [None];
    assert Present([None]) == Present([]);
  }

  /** A dictionary given directly reads like a one-item list. */
  lemma SingleLocationLikeList(d: seq<Field>)
    ensures LocationOf(JObject(d)) == LocationOf(JArray([JObject(d)]))
  {
    if d == [] {
      EmptyItemHasNoLine();
      ListOfLinelessItem(JObject(d));
    } else {
      SameItemsSameLocation(JObject(d), JArray([JObject(d)]));
    }
  }

  lemma SameItemsSameLocation(a: Json, b: Json)
    requires Truthy(a) == Truthy(b) && LocationItems(a) == LocationItems(b)
    ensures LocationOf(a) == LocationOf(b)
  {
  }

  /** Repeating the location list changes nothing: repeated lines are
      dropped. */
  lemma RepeatedLocationsCollapse(items: seq<Json>)
    requires items != []
    ensures LocationOf(JArray(items)) == LocationOf(JArray(items + items))
  {
    var lines := LocationLines(items);
    LocationLinesAppend(items, items);
    DedupAppendSeen(lines, lines);
  }

  /** A part stored as a string without surrounding white space is read as
      that string. */
  lemma AddressPartOfString(address: seq<Field>, key: string, v: string)
    requires Get(address, key) == Some(JString(v))
    requires v != [] ==> !IsSpace(v[0]) && !IsSpace(v[|v| - 1])
    ensures AddressPart(address, key) == v
  {
    StripUnchanged(v);
  }

  /** An absent part is read as the empty string. */
  lemma AddressPartAbsent(address: seq<Field>, key: string)
    requires Get(address, key) == None
    ensures AddressPart(address, key) == ""
  {
    StripUnchanged("");
  }

  /** A null part is rendered by `str()` as the text "None". */
  lemma AddressPartNull(address: seq<Field>, key: string)
    requires Get(address, key) == Some(JNull)
    ensures AddressPart(address, key) == "None"
  {
    StrOfNull();
    StripUnchanged("None");
  }

  /** Two non-empty parts are joined by ", ". */
  lemma JoinTwoParts(locality: string, region: string)
    requires locality != "" && region != ""
    ensures JoinParts(locality, region) == locality + ", " + region
  {
    var parts := [locality, region];
    assert parts[1..] == [region] && [region][1..] == [];
    assert NonEmptyParts([region]) == [region];
    assert NonEmptyParts(parts) == parts;
    assert Join(", ", parts) == locality + ", " + Join(", ", [region]);
  }

  /** An empty region leaves the locality alone. */
  lemma JoinLocalityOnly(locality: string)
    requires locality != ""
    ensures JoinParts(locality, "") == locality
  {
    var parts := [locality, ""];
    assert parts[1..] == [""] && [""][1..] == [];
    assert NonEmptyParts([""]) == [];
    assert NonEmptyParts(parts) == [locality];
  }

  /** An item whose `address` is a dictionary gives that address's line,
      unless it is empty. */
  lemma ItemLineOfAddress(item: Json, address: seq<Field>)
    requires item.JObject? && Get(item.fields, "address") == Some(JObject(address))
    ensures ItemLine(item) == if AddressLine(address) == "" then None else Some(AddressLine(address))
  {
  }

  /** An address with a stripped locality and region reads "locality,
      region". */
  lemma AddressLineOfTwoParts(address: seq<Field>, locality: string, region: string)
    requires locality != "" && !IsSpace(locality[0]) && !IsSpace(locality[|locality| - 1])
    requires region != "" && !IsSpace(region[0]) && !IsSpace(region[|region| - 1])
    requires address == [Field("addressLocality", JString(locality)), Field("addressRegion", JString(region))]
    ensures AddressLine(address) == locality + ", " + region
  {
    AddressKeysDiffer();
    assert Get(address, "addressRegion") == Get(address[1..], "addressRegion");
    AddressPartOfString(address, "addressLocality", locality);
    AddressPartOfString(address, "addressRegion", region);
    JoinTwoParts(locality, region);
  }

  /** A null locality without a region reads "None": `str()` of a null is
      the text "None". */
  lemma NullLocalityReadsNone(address: seq<Field>)
    requires address == [Field("addressLocality", JNull)]
    ensures AddressLine(address) == "None"
  {
    AddressKeysDiffer();
    assert Get(address, "addressRegion") == Get(address[1..], "addressRegion");
    AddressPartNull(address, "addressLocality");
    AddressPartAbsent(address, "addressRegion");
    JoinLocalityOnly("None");
  }

  lemma PresentOfOne(line: string)
    ensures Present([Some(line)]) == [line]
  {
    assert [Some(line)][..0] == [];
  }

  lemma DedupOfOne(line: string)
    ensures Dedup([line]) == [line]
  {
    assert [line][..0] == [];
  }

  lemma LocationLinesOfOne(item: Json, line: string)
    requires ItemLines([item]) == [Some(line)]
    ensures LocationLines([item]) == [line]
  {
    PresentOfOne(line);
  }

  lemma LocationOfOneLine(item: Json, line: string)
    requires LocationLines([item]) == [line]
    ensures LocationOf(JArray([item])) == Some(line)
  {
    DedupOfOne(line);
  }

  /** A one-item list reads as that item's line. */
  lemma OneItemLocation(item: Json, line: string)
    requires ItemLine(item) == Some(line)
    ensures LocationOf(JArray([item])) == Some(line)
  {
    assert ItemLines([item]) == [Some(line)];
    LocationLinesOfOne(item, line);
    LocationOfOneLine(item, line);
  }

  /** A posting with one location whose address has a stripped locality and
      region reads "locality, region". */
  lemma OneAddressLocation(posting: seq<Field>, locality: string, region: string)
    requires locality != "" && !IsSpace(locality[0]) && !IsSpace(locality[|locality| - 1])
    requires region != "" && !IsSpace(region[0]) && !IsSpace(region[|region| - 1])
    requires posting == [Field("jobLocation", JArray([JObject([Field("address", JObject([
                           Field("addressLocality", JString(locality)),
                           Field("addressRegion", JString(region))]))])]))]
    ensures Location(posting) == Some(locality + ", " + region)
  {
    var address := [Field("addressLocality", JString(locality)), Field("addressRegion", JString(region))];
    var item := JObject([Field("address", JObject(address))]);
    AddressLineOfTwoParts(address, locality, region);
    ItemLineOfAddress(item, address);
    OneItemLocation(item, locality + ", " + region);
  }

  /** The item loop of `_extract_location_from_job_posting`. */
  method ExtractLocation(posting: seq<Field>) returns (r: Option<string>)
    ensures r == Location(posting)
  {
    var location := GetOr(posting, "jobLocation", JNull);
    if !Truthy(location) {
      return None;
    }
    var items := LocationItems(location);
    ghost var lines := ItemLines(items);
    var formatted: seq<string> := [];
    for i := 0 to |items|
      invariant formatted == Present(lines[..i])
    {
      PresentStep(lines, i);
      var item := items[i];
      if !item.JObject? {
        continue;
      }
      var address := GetOr(item.fields, "address", JObject([]));
      if !address.JObject? {
        continue;
      }
      var joined := AddressLine(address.fields);
      if joined != "" {
        formatted := formatted + [joined];
      }
    }
    assert lines[..|items|] == lines;
    if formatted == [] {
      return None;
    }
    r := Some(Join(" | ", Dedup(formatted)));
  }

  /** The three salary cells. */
  datatype SalaryFields = SalaryFields(estimated: Cell, minimum: Cell, maximum: Cell)

  const NoSalary := SalaryFields(Missing, Missing, Missing)

  /** `isinstance(x, (int, float))` for a JSON value: integers and booleans
      (a `bool` is an `int`). */
  predicate IsNumber(j: Json) {
    j.JInt? || j.JBool?
  }

  /** `value.get(key, np.nan)`, NaN written as `Missing`. */
  function Entry(fields: seq<Field>, key: string): Cell {
    match Get(fields, key)
    case None => Missing
    case Some(v) => Value(v)
  }

  /** `f"{currency} {amount}"`. */
  function WithCurrency(currency: Json, amount: string): string {
    Str(currency) + " " + amount
  }

  /** `_extract_salary_fields_from_job_posting` as written: a missing exact
      value defaults to the float NaN, which passes the number test, so with
      a currency it is formatted as the text "<currency> nan". */
  function SalaryFieldsAsWritten(posting: seq<Field>): SalaryFields {
    var base := GetOr(posting, "baseSalary", JNull);
    if !base.JObject? then NoSalary
    else
      var value := GetOr(base.fields, "value", JObject([]));
      var currency := GetOr(posting, "salaryCurrency", JString(""));
      if !value.JObject? then NoSalary
      else
        var estimated :=
          match Get(value.fields, "value")
          case None => if Truthy(currency) then Formatted(WithCurrency(currency, "nan")) else Missing
          case Some(x) => if IsNumber(x) && Truthy(currency) then Formatted(WithCurrency(currency, Str(x))) else Value(x);
        SalaryFields(estimated, Entry(value.fields, "minValue"), Entry(value.fields, "maxValue"))
  }

  /** The salary cells as evidently intended: a missing exact value stays
      missing. */
  function SalaryFieldsOf(posting: seq<Field>): SalaryFields {
    var base := GetOr(posting, "baseSalary", JNull);
    if !base.JObject? then NoSalary
    else
      var value := GetOr(base.fields, "value", JObject([]));
      var currency := GetOr(posting, "salaryCurrency", JString(""));
      if !value.JObject? then NoSalary
      else
        var estimated :=
          match Get(value.fields, "value")
          case None => Missing
          case Some(x) => if IsNumber(x) && Truthy(currency) then Formatted(WithCurrency(currency, Str(x))) else Value(x);
        SalaryFields(estimated, Entry(value.fields, "minValue"), Entry(value.fields, "maxValue"))
  }

  /** The salary dictionary of the posting, when both levels are dictionaries. */
  function SalaryValue(posting: seq<Field>): Option<seq<Field>> {
    var base := GetOr(posting, "baseSalary", JNull);
    if !base.JObject? then None
    else
      var value := GetOr(base.fields, "value", JObject([]));
      if value.JObject? then Some(value.fields) else None
  }

  /** Without a salary dictionary every cell is missing; with one, the bounds
      are its `minValue` and `maxValue` (missing when absent), and the
      estimate is missing exactly when it has no `value`, formatted exactly
      when that value is a number and the currency is truthy, and the value
      itself otherwise. A non-negative amount can be read back from the
      formatted text. */
  lemma SalaryFieldsSpec(posting: seq<Field>)
    ensures SalaryValue(posting).None? ==> SalaryFieldsOf(posting) == NoSalary
    ensures SalaryValue(posting).Some? ==>
              var v := SalaryValue(posting).value;
              var currency := GetOr(posting, "salaryCurrency", JString(""));
              var r := SalaryFieldsOf(posting);
              (r.minimum == Missing <==> Get(v, "minValue").None?) &&
              (r.maximum == Missing <==> Get(v, "maxValue").None?) &&
              (Get(v, "minValue").Some? ==> r.minimum == Value(Get(v, "minValue").value)) &&
              (Get(v, "maxValue").Some? ==> r.maximum == Value(Get(v, "maxValue").value)) &&
              (r.estimated == Missing <==> Get(v, "value").None?) &&
              (r.estimated.Formatted? <==> Get(v, "value").Some? && IsNumber(Get(v, "value").value) && Truthy(currency)) &&
              (r.estimated.Value? ==> r.estimated.json == Get(v, "value").value) &&
              (r.estimated.Formatted? && Get(v, "value").value.JInt? && Get(v, "value").value.i >= 0 ==>
                 var prefix := Str(currency) + " ";
                 StartsWith(r.estimated.text, prefix) &&
                 IsDigits(r.estimated.text[|prefix|..]) &&
                 ParseDecimal(r.estimated.text[|prefix|..]) == Get(v, "value").value.i)
  {
    if SalaryValue(posting).Some? {
      var v := SalaryValue(posting).value;
      var currency := GetOr(posting, "salaryCurrency", JString(""));
      SalaryShape(posting);
      if Get(v, "value").Some? && Get(v, "value").value.JInt? && Get(v, "value").value.i >= 0 {
        AmountReadsBack(currency, Get(v, "value").value.i);
      }
    }
  }

  /** The cells `SalaryFieldsOf` builds from a salary dictionary. */
  lemma SalaryShape(posting: seq<Field>)
    requires SalaryValue(posting).Some?
    ensures var v := SalaryValue(posting).value;
            var currency := GetOr(posting, "salaryCurrency", JString(""));
            var r := SalaryFieldsOf(posting);
            r.minimum == Entry(v, "minValue") && r.maximum == Entry(v, "maxValue") &&
            (Get(v, "value").None? ==> r.estimated == Missing) &&
            (Get(v, "value").Some? && IsNumber(Get(v, "value").value) && Truthy(currency) ==>
               r.estimated == Formatted(WithCurrency(currency, Str(Get(v, "value").value)))) &&
            (Get(v, "value").Some? && !(IsNumber(Get(v, "value").value) && Truthy(currency)) ==>
               r.estimated == Value(Get(v, "value").value))
  {
  }

  /** The text of a formatted non-negative amount ends in its decimal digits. */
  lemma AmountReadsBack(currency: Json, n: nat)
    ensures var prefix := Str(currency) + " ";
            var text := WithCurrency(currency, Str(JInt(n)));
            StartsWith(text, prefix) && IsDigits(text[|prefix|..]) && ParseDecimal(text[|prefix|..]) == n
  {
    var prefix := Str(currency) + " ";
    assert WithCurrency(currency, Str(JInt(n))) == prefix + Decimal(n);
    assert (prefix + Decimal(n))[|prefix|..] == Decimal(n);
    ParseDecimalOfDecimal(n);
  }

  /** The two readings differ only in the estimate, and only when the salary
      dictionary has no `value` while a currency is given. */
  lemma SalaryAsWrittenDiffers(posting: seq<Field>)
    ensures SalaryFieldsAsWritten(posting).minimum == SalaryFieldsOf(posting).minimum
    ensures SalaryFieldsAsWritten(posting).maximum == SalaryFieldsOf(posting).maximum
    ensures SalaryFieldsAsWritten(posting) != SalaryFieldsOf(posting) <==>
              SalaryValue(posting).Some? && Get(SalaryValue(posting).value, "value").None? &&
              Truthy(GetOr(posting, "salaryCurrency", JString("")))
  {
  }

  /** A posting whose salary has bounds but no exact value: as written the
      estimate is the text "BRL nan"; as intended it is missing. */
  lemma SalaryNanWitness()
    ensures var posting := [Field("baseSalary", JObject([Field("value", JObject([Field("minValue", JInt(5000))]))])),
                            Field("salaryCurrency", JString("BRL"))];
            SalaryFieldsAsWritten(posting).estimated == Formatted("BRL nan") &&
            SalaryFieldsOf(posting).estimated == Missing
  {
    var posting := [Field("baseSalary", JObject([Field("value", JObject([Field("minValue", JInt(5000))]))])),
                    Field("salaryCurrency", JString("BRL"))];
    assert GetOr(posting, "salaryCurrency", JString("")) == JString("BRL");
  }

  /** An exact amount with a currency is formatted as "<currency> <amount>". */
  lemma SalaryExample()
    ensures var posting := [Field("baseSalary", JObject([Field("value", JObject([Field("value", JInt(7000))]))])),
                            Field("salaryCurrency", JString("BRL"))];
            SalaryFieldsOf(posting) == SalaryFields(Formatted("BRL 7000"), Missing, Missing)
  {
    ExactAmount(JString("BRL"), JInt(7000));
    AmountText();
  }

  /** A salary with only an exact number and a truthy currency. */
  lemma ExactAmount(currency: Json, amount: Json)
    requires Truthy(currency) && IsNumber(amount)
    ensures var posting := [Field("baseSalary", JObject([Field("value", JObject([Field("value", amount)]))])),
                            Field("salaryCurrency", currency)];
            SalaryFieldsOf(posting) == SalaryFields(Formatted(WithCurrency(currency, Str(amount))), Missing, Missing)
  {
    var posting := [Field("baseSalary", JObject([Field("value", JObject([Field("value", amount)]))])),
                    Field("salaryCurrency", currency)];
    assert posting[0].key != "salaryCurrency" && posting[1..] == [Field("salaryCurrency", currency)];
    assert Get(posting[1..], "salaryCurrency") == Some(currency);
    assert GetOr(posting, "salaryCurrency", JString("")) == currency;
    assert "value" != "minValue" && "value" != "maxValue";
  }

  /** The text of the example's amount with its currency. */
  lemma AmountText()
    ensures WithCurrency(JString("BRL"), Str(JInt(7000))) == "BRL 7000"
  {
    assert Str(JInt(7000)) == IntString(7000) == Decimal(7000);
    assert Decimal(7) == "7";
    assert Decimal(70) == "70";
    assert Decimal(700) == "700";
    assert Decimal(7000) == "7000";
  }
}
