/** The data path of the client kayak grid (app/components/KayakGrid.tsx,
    `fetchKayakReviews`): the candidate text of the generation response,
    the cleanup chain, the parse, the truthiness filter over the entries,
    the coercion of their spec fields, and the error message and details
    each failure ends in. */
module KayakGrid {

  import opened Wrappers
  import opened Text
  import opened Seqs
  import opened JsValues
  import opened ClientCleanup
  import KayakValidator

  // ---------------------------------------------------------------------
  // The entry filter and the coercion map

  /** `kayak && kayak.id && kayak.title && kayak.specs && kayak.summary`. */
  predicate KeepsEntry(k: JsValue)
  {
    && Truthy(k)
    && Truthy(Get(k, "id"))
    && Truthy(Get(k, "title"))
    && Truthy(Get(k, "specs"))
    && Truthy(Get(k, "summary"))
  }

  /** Only plain objects pass the filter: no other value has an `id`. */
  lemma KeptEntriesAreObjects(k: JsValue)
    requires KeepsEntry(k)
    ensures k.Obj?
    ensures Truthy(Field(k.fields, "specs")) && Get(k, "specs") == Field(k.fields, "specs")
  {
    GetNamedKey(k, "id");
    GetNamedKey(k, "specs");
  }

  /** `value.replace(/[^0-9.-]+/g, '')`: every character other than a digit,
      `.` or `-` is deleted. */
  function PriceDigits(s: string): (r: string)
    ensures forall i :: 0 <= i < |r| ==> PriceChar(r[i])
    ensures IsSubsequence(r, s)
    ensures forall c :: c in s && PriceChar(c) ==> c in r
  {
    Filter(PriceChar, s)
  }

  predicate PriceChar(c: char)
  {
    IsDigit(c) || c == '.' || c == '-'
  }

  /** A dollar amount with a thousands separator, such as `"$1,099"`, keeps
      exactly its digits. */
  lemma PriceDigitsOfDollars(a: string, b: string)
    requires forall i :: 0 <= i < |a| ==> IsDigit(a[i])
    requires forall i :: 0 <= i < |b| ==> IsDigit(b[i])
    ensures PriceDigits("$" + a + "," + b) == a + b
  {
    var dollar, comma := "$", ",";
    FilterConcat(PriceChar, dollar, a);
    DigitsKept(a);
    NonPriceCharDropped('$');
    assert PriceDigits(dollar + a) == a by {
      assert [] + a == a;
    }
    FilterConcat(PriceChar, dollar + a, comma);
    NonPriceCharDropped(',');
    assert PriceDigits(dollar + a + comma) == a by {
      assert a + [] == a;
    }
    FilterConcat(PriceChar, dollar + a + comma, b);
    DigitsKept(b);
  }

  lemma DigitsKept(a: string)
    requires forall i :: 0 <= i < |a| ==> IsDigit(a[i])
    ensures PriceDigits(a) == a
  {
    assert forall i :: 0 <= i < |a| ==> PriceChar(a[i]);
    FilterAll(PriceChar, a);
  }

  lemma NonPriceCharDropped(c: char)
    requires !PriceChar(c)
    ensures PriceDigits([c]) == []
  {
    assert [c][1..] == [];
  }

  /** `Number(x || fallback)`; `None` when the conversion throws. */
  function NumberOr(x: JsValue, fallback: real, host: Host): (r: Option<JsValue>)
    ensures !Truthy(x) ==> r == Some(Number(fallback))
    ensures Truthy(x) && x.Num? ==> r == Some(x)
    ensures Truthy(x) && x.Str? ==> r == Some(Num(host.stringToNumber(x.str)))
    ensures x == Bool(true) ==> r == Some(Number(1.0))
    ensures Throws(x) ==> && (r.Some? <==> host.objectToNumber(x).Some?)
                          && (r.Some? ==> r.value == Num(host.objectToNumber(x).value))
    ensures r.Some? ==> r.value.Num?
    ensures !x.Obj? && !x.Arr? ==> r.Some?
  {
    match ToNumber(Or(x, Number(fallback)), host)
    case Some(n) => Some(Num(n))
    case None => None
  }

  /** The price: a string loses its non-numeric characters before the
      conversion; any other value converts as `Number(price || 0)`. */
  function CoercePrice(price: JsValue, host: Host): (r: Option<JsValue>)
    ensures price.Str? ==> r == Some(Num(host.stringToNumber(PriceDigits(price.str))))
    ensures !price.Str? ==> r == NumberOr(price, 0.0, host)
  {
    if price.Str? then Some(Num(host.stringToNumber(PriceDigits(price.str))))
    else NumberOr(price, 0.0, host)
  }

  /** Only an object or an array can make `Number()` throw. */
  predicate Throws(x: JsValue)
  {
    x.Obj? || x.Arr?
  }

  /** The seven spec fields the map overwrites. */
  predicate IsCoercedKey(key: string)
  {
    key == "length" || key == "width" || key == "weight" || key == "capacity"
    || key == "price" || key == "accessories" || key == "seats"
  }

  /** `{...base, length: ..., seats: ...}`: the seven coerced fields over
      the spread of the original specs. */
  function Overwrite(base: map<string, JsValue>, length: JsValue, width: JsValue, weight: JsValue,
                     capacity: JsValue, price: JsValue, accessories: JsValue, seats: JsValue): (m: map<string, JsValue>)
    ensures forall key :: key in base && !IsCoercedKey(key) ==> key in m && m[key] == base[key]
    ensures forall key :: key in m ==> key in base || IsCoercedKey(key)
    ensures "length" in m && m["length"] == length
    ensures "width" in m && m["width"] == width
    ensures "weight" in m && m["weight"] == weight
    ensures "capacity" in m && m["capacity"] == capacity
    ensures "price" in m && m["price"] == price
    ensures "accessories" in m && m["accessories"] == accessories
    ensures "seats" in m && m["seats"] == seats
  {
    base["length" := length]["width" := width]["weight" := weight]["capacity" := capacity]
      ["price" := price]["accessories" := accessories]["seats" := seats]
  }

  /** `{...specs, length: ..., ..., seats: ...}`; `None` when a `Number()`
      call throws. */
  function CoerceSpecs(specs: JsValue, host: Host): (r: Option<map<string, JsValue>>)
    requires !IsNullish(specs)
    ensures r.Some? ==> forall key :: key in Spread(specs) && !IsCoercedKey(key) ==> key in r.value && r.value[key] == Spread(specs)[key]
    ensures r.Some? ==> forall key :: key in r.value ==> key in Spread(specs) || IsCoercedKey(key)
    ensures r.Some? ==> "accessories" in r.value && r.value["accessories"] == (if Get(specs, "accessories").Arr? then Get(specs, "accessories") else Arr([]))
    ensures r.Some? ==> "length" in r.value && NumberOr(Get(specs, "length"), 0.0, host) == Some(r.value["length"])
    ensures r.Some? ==> "width" in r.value && NumberOr(Get(specs, "width"), 0.0, host) == Some(r.value["width"])
    ensures r.Some? ==> "weight" in r.value && NumberOr(Get(specs, "weight"), 0.0, host) == Some(r.value["weight"])
    ensures r.Some? ==> "capacity" in r.value && NumberOr(Get(specs, "capacity"), 0.0, host) == Some(r.value["capacity"])
    ensures r.Some? ==> "price" in r.value && CoercePrice(Get(specs, "price"), host) == Some(r.value["price"])
    ensures r.Some? ==> "seats" in r.value && NumberOr(Get(specs, "seats"), 1.0, host) == Some(r.value["seats"])
    ensures r.None? ==> Throws(Get(specs, "length")) || Throws(Get(specs, "width")) || Throws(Get(specs, "weight"))
                        || Throws(Get(specs, "capacity")) || Throws(Get(specs, "price")) || Throws(Get(specs, "seats"))
  {
    var length := NumberOr(Get(specs, "length"), 0.0, host);
    var width := NumberOr(Get(specs, "width"), 0.0, host);
    var weight := NumberOr(Get(specs, "weight"), 0.0, host);
    var capacity := NumberOr(Get(specs, "capacity"), 0.0, host);
    var price := CoercePrice(Get(specs, "price"), host);
    var seats := NumberOr(Get(specs, "seats"), 1.0, host);
    var accessories := if Get(specs, "accessories").Arr? then Get(specs, "accessories") else Arr([]);
    if length.None? || width.None? || weight.None? || capacity.None? || price.None? || seats.None? then
      None
    else
      Some(Overwrite(Spread(specs), length.value, width.value, weight.value, capacity.value,
                     price.value, accessories, seats.value))
  }

  /** `({...kayak, specs: {...}})` for an entry the filter kept. */
  function Coerce(k: JsValue, host: Host): (r: Option<JsValue>)
    requires KeepsEntry(k)
    ensures r.Some? ==> r.value.Obj? && k.Obj?
    ensures r.Some? ==> forall key :: key in k.fields && key != "specs" ==> key in r.value.fields && r.value.fields[key] == k.fields[key]
    ensures r.Some? ==> forall key :: key in r.value.fields ==> key in k.fields
    ensures r.Some? ==> "specs" in r.value.fields && r.value.fields["specs"].Obj?
                        && CoerceSpecs(Get(k, "specs"), host) == Some(r.value.fields["specs"].fields)
    ensures r.None? <==> CoerceSpecs(Get(k, "specs"), host).None?
  {
    KeptEntriesAreObjects(k);
    match CoerceSpecs(Get(k, "specs"), host)
    case None => None
    case Some(s) => Some(Obj(k.fields["specs" := Obj(s)]))
  }

  /** The coercion keeps the entry: the filter would keep its output too. */
  lemma CoercionKeepsEntry(k: JsValue, host: Host)
    requires KeepsEntry(k)
    ensures Coerce(k, host).Some? ==> KeepsEntry(Coerce(k, host).value)
  {
    if Coerce(k, host).Some? {
      var r := Coerce(k, host).value;
      KeptEntriesAreObjects(k);
      GetNamedKey(r, "id");
      GetNamedKey(r, "title");
      GetNamedKey(r, "specs");
      GetNamedKey(r, "summary");
      GetNamedKey(k, "id");
      GetNamedKey(k, "title");
      GetNamedKey(k, "summary");
    }
  }

  /** The map over the kept entries, failing as a whole when one entry's
      coercion throws. */
  function CoerceAll(kept: seq<JsValue>, host: Host): (r: Option<seq<JsValue>>)
    requires forall i :: 0 <= i < |kept| ==> KeepsEntry(kept[i])
    ensures r.Some? ==> |r.value| == |kept|
    ensures r.Some? ==> forall i :: 0 <= i < |kept| ==> Coerce(kept[i], host) == Some(r.value[i])
    ensures r.None? <==> exists i :: 0 <= i < |kept| && Coerce(kept[i], host).None?
  {
    var f := (k: JsValue) => if KeepsEntry(k) then Coerce(k, host) else None;
    assert forall i :: 0 <= i < |kept| ==> f(kept[i]) == Coerce(kept[i], host);
    MapAll(f, kept)
  }

  /** The server's record shape and the client coercion disagree on
      `accessories`: every entry the server route would accept has a string
      there, and the coercion replaces it with an empty array. */
  lemma AccessoriesDropped(k: JsValue, host: Host)
    requires KayakValidator.IsValidKayakReview(k) && KeepsEntry(k)
    ensures Get(Get(k, "specs"), "accessories").Str?
    ensures Coerce(k, host).Some? ==> Coerce(k, host).value.fields["specs"].fields["accessories"] == Arr([])
  {
    KayakValidator.ValidatorAcceptsExactlyRecords(k);
    KeptEntriesAreObjects(k);
    var specs := Get(k, "specs");
    GetNamedKey(specs, "accessories");
  }

  // ---------------------------------------------------------------------
  // `fetchKayakReviews`

  /** What the fetch gave the component: a thrown error's message, a
      non-OK status with the response text, or the parsed JSON body. */
  datatype ClientUpstream = Thrown(message: string) | HttpError(status: nat, body: string) | Body(data: JsValue)

  /** The state the component ends in: the reviews to show, or the error
      message with its details. */
  datatype View = Reviews(records: seq<JsValue>) | ErrorView(message: string, details: string)

  const ParseFailure: string := "Failed to parse kayak data"
  const BadStructure: string := "Invalid API response structure"
  /** What V8 says when `content.replace` is read from a value that has no
      such method. */
  const ReplaceNotAFunction: string := "content.replace is not a function"
  const DefaultDetails: string := "Please check your API key and try again"
  const KeyDetails: string := "Invalid or missing API key. Please check your environment variables."

  /** `data?.candidates?.[0]?.content?.parts?.[0]?.text`. */
  function CandidateText(data: JsValue): JsValue
  {
    OptGet(OptGet(OptGet(OptGet(OptGet(OptGet(data, "candidates"), "0"), "content"), "parts"), "0"), "text")
  }

  /** The `try` block around the parse: every failure in it becomes the one
      error `Failed to parse kayak data`. */
  function ParseBlock(content: string, fixes: string -> string, host: Host): (r: Result<seq<JsValue>, string>)
    ensures r.Err? ==> r.error == ParseFailure
    ensures r.Ok? ==> |r.value| > 0
    ensures r.Ok? ==> forall i :: 0 <= i < |r.value| ==> KeepsEntry(r.value[i])
    ensures var parsed := host.parse(CleanContent(content, fixes));
            r.Ok? ==> && parsed.Parsed? && parsed.value.Arr?
                      && |r.value| == |Filter(KeepsEntry, parsed.value.elems)|
                      && CoerceAll(Filter(KeepsEntry, parsed.value.elems), host) == Some(r.value)
    ensures var parsed := host.parse(CleanContent(content, fixes));
            parsed.Parsed? && parsed.value.Arr? ==>
              var coerced := CoerceAll(Filter(KeepsEntry, parsed.value.elems), host);
              coerced.Some? && |coerced.value| > 0 ==> r == Ok(coerced.value)
  {
    Entries(host.parse(CleanContent(content, fixes)), host)
  }

  /** What the block makes of the parse result: the coerced entries the
      filter keeps, when the result is an array and at least one is kept. */
  function Entries(parsed: ParseResult, host: Host): (r: Result<seq<JsValue>, string>)
    ensures r.Err? ==> r.error == ParseFailure
    ensures r.Ok? ==> |r.value| > 0
    ensures r.Ok? ==> forall i :: 0 <= i < |r.value| ==> KeepsEntry(r.value[i])
    ensures r.Ok? ==> && parsed.Parsed? && parsed.value.Arr?
                      && |r.value| == |Filter(KeepsEntry, parsed.value.elems)|
                      && CoerceAll(Filter(KeepsEntry, parsed.value.elems), host) == Some(r.value)
    ensures parsed.Parsed? && parsed.value.Arr? ==>
              var coerced := CoerceAll(Filter(KeepsEntry, parsed.value.elems), host);
              coerced.Some? && |coerced.value| > 0 ==> r == Ok(coerced.value)
  {
    match parsed
    case SyntaxError(_) => Err(ParseFailure)
    case Parsed(v) =>
      if !v.Arr? then Err(ParseFailure)
      else
        var kept := Filter(KeepsEntry, v.elems);
        match CoerceAll(kept, host)
        case None => Err(ParseFailure)
        case Some(valid) =>
          if |valid| == 0 then Err(ParseFailure)
          else
            CoercedAreKept(kept, valid, host);
            Ok(valid)
  }

  /** Every coerced entry is still one the filter keeps. */
  lemma CoercedAreKept(kept: seq<JsValue>, valid: seq<JsValue>, host: Host)
    requires forall i :: 0 <= i < |kept| ==> KeepsEntry(kept[i])
    requires CoerceAll(kept, host) == Some(valid)
    ensures forall i :: 0 <= i < |valid| ==> KeepsEntry(valid[i])
  {
    forall i | 0 <= i < |valid| {
      CoercionKeepsEntry(kept[i], host);
    }
  }

  /** The error details: the API-key hint exactly when the message
      mentions 401. */
  function Details(message: string): (d: string)
    ensures d == KeyDetails <==> Contains(message, "401")
    ensures d == DefaultDetails <==> !Contains(message, "401")
  {
    if Contains(message, "401") then KeyDetails else DefaultDetails
  }

  /** The component's fetch-and-parse logic after the network call. */
  function FetchKayakReviews(upstream: ClientUpstream, fixes: string -> string, host: Host): (v: View)
    ensures upstream.Thrown? ==> v == ErrorView(upstream.message, Details(upstream.message))
    ensures upstream.HttpError? ==>
              v.ErrorView? && v.message == "Failed to fetch kayak data: " + Decimal(upstream.status) + "\n" + upstream.body
    ensures upstream.Body? && !Truthy(CandidateText(upstream.data)) ==> v == ErrorView(BadStructure, DefaultDetails)
    ensures v.ErrorView? ==> v.details == Details(v.message)
    ensures v.Reviews? ==> upstream.Body? && CandidateText(upstream.data).Str? && |v.records| > 0
    ensures upstream.Body? && Truthy(CandidateText(upstream.data)) && !CandidateText(upstream.data).Str? ==>
              v == ErrorView(ReplaceNotAFunction, DefaultDetails)
    ensures upstream.Body? && Truthy(CandidateText(upstream.data)) && CandidateText(upstream.data).Str? ==>
              var block := ParseBlock(CandidateText(upstream.data).str, fixes, host);
              && (block.Ok? ==> v == Reviews(block.value))
              && (block.Err? ==> v == ErrorView(ParseFailure, DefaultDetails))
  {
    match upstream
    case Thrown(m) => ErrorView(m, Details(m))
    case HttpError(status, body) =>
      var m := "Failed to fetch kayak data: " + Decimal(status) + "\n" + body;
      ErrorView(m, Details(m))
    case Body(data) => BodyView(data, fixes, host)
  }

  /** The view for a response that arrived: the candidate text must be a
      non-empty string before the parse block runs. */
  function BodyView(data: JsValue, fixes: string -> string, host: Host): (v: View)
    ensures !Truthy(CandidateText(data)) ==> v == ErrorView(BadStructure, DefaultDetails)
    ensures Truthy(CandidateText(data)) && !CandidateText(data).Str? ==>
              v == ErrorView(ReplaceNotAFunction, DefaultDetails)
    ensures Truthy(CandidateText(data)) && CandidateText(data).Str? ==>
              var block := ParseBlock(CandidateText(data).str, fixes, host);
              && (block.Ok? ==> v == Reviews(block.value))
              && (block.Err? ==> v == ErrorView(ParseFailure, DefaultDetails))
    ensures v.ErrorView? ==> v.details == Details(v.message)
    ensures v.Reviews? ==> CandidateText(data).Str? && |v.records| > 0
  {
    ParseFailuresGetDefaultDetails();
    var text := CandidateText(data);
    if !Truthy(text) then ErrorView(BadStructure, DefaultDetails)
    else if !text.Str? then ErrorView(ReplaceNotAFunction, DefaultDetails)
    else
      match ParseBlock(text.str, fixes, host)
      case Err(m) => ErrorView(m, DefaultDetails)
      case Ok(records) => Reviews(records)
  }

  /** A message without the digit 4 never gets the API-key hint. */
  lemma NoFourNoKeyHint(message: string)
    requires '4' !in message
    ensures Details(message) == DefaultDetails
  {
    forall i: nat | i + 3 <= |message|
      ensures !HasAt(message, i, "401")
    {
      assert message[i..i + 3][0] == message[i];
    }
  }

  /** Every failure inside the parse block, and a response without
      candidate text, reach the user with the default details. */
  lemma ParseFailuresGetDefaultDetails()
    ensures Details(ParseFailure) == DefaultDetails
    ensures Details(BadStructure) == DefaultDetails
    ensures Details(ReplaceNotAFunction) == DefaultDetails
  {
    ParseFailureDetails();
    BadStructureDetails();
    TypeErrorDetails();
  }

  lemma ParseFailureDetails()
    ensures Details(ParseFailure) == DefaultDetails
  {
    NoFourNoKeyHint(ParseFailure);
  }

  lemma BadStructureDetails()
    ensures Details(BadStructure) == DefaultDetails
  {
    NoFourNoKeyHint(BadStructure);
  }

  lemma TypeErrorDetails()
    ensures Details(ReplaceNotAFunction) == DefaultDetails
  {
    NoFourNoKeyHint(ReplaceNotAFunction);
  }

  /** Unlike the server route, the client keeps every entry: a parsed
      array of `n` entries that all pass the filter and coerce shows `n`
      reviews, however many that is. */
  lemma NoCapOnEntries(content: string, fixes: string -> string, host: Host, kayaks: seq<JsValue>)
    requires host.parse(CleanContent(content, fixes)) == Parsed(Arr(kayaks))
    requires |kayaks| > 0 && forall i :: 0 <= i < |kayaks| ==> KeepsEntry(kayaks[i])
    ensures (forall i :: 0 <= i < |kayaks| ==> Coerce(kayaks[i], host).Some?) ==>
              ParseBlock(content, fixes, host).Ok? && |ParseBlock(content, fixes, host).value| == |kayaks|
  {
    if forall i :: 0 <= i < |kayaks| ==> Coerce(kayaks[i], host).Some? {
      EntriesKeepAll(kayaks, host);
    }
  }

  lemma EntriesKeepAll(kayaks: seq<JsValue>, host: Host)
    requires |kayaks| > 0 && forall i :: 0 <= i < |kayaks| ==> KeepsEntry(kayaks[i])
    ensures (forall i :: 0 <= i < |kayaks| ==> Coerce(kayaks[i], host).Some?) ==>
              Entries(Parsed(Arr(kayaks)), host).Ok? && |Entries(Parsed(Arr(kayaks)), host).value| == |kayaks|
  {
    if forall i :: 0 <= i < |kayaks| ==> Coerce(kayaks[i], host).Some? {
      FilterAll(KeepsEntry, kayaks);
      assert CoerceAll(kayaks, host).Some?;
    }
  }

  /** A 401 from the API is reported with the API-key hint. */
  lemma UnauthorizedGetsKeyHint(body: string, fixes: string -> string, host: Host)
    ensures FetchKayakReviews(HttpError(401, body), fixes, host)
            == ErrorView("Failed to fetch kayak data: " + "401" + "\n" + body, KeyDetails)
  {
    DecimalOf401();
    var m := "Failed to fetch kayak data: " + "401" + "\n" + body;
    assert m[28..31] == "401";
    assert HasAt(m, 28, "401");
  }

  lemma DecimalOf401()
    ensures Decimal(401) == "401"
  {
    assert Decimal(4) == "4";
    assert Decimal(40) == "40";
  }
}
