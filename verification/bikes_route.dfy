/** The static route app/api/bikes/route.ts: a hard-coded three-record kayak
    dataset served by `GET`, and a second `isValidKayakReview` that computes
    fifteen named checks and reports the ones that failed. The report is a
    returned value here instead of console output. */
module BikesRoute {

  import opened Seqs
  import opened JsValues
  import KayakValidator

  /** Names of the checks, in the order the `validations` object declares
      them (the order `Object.entries` lists them in). */
  const CheckNames: seq<string> := [
    "isObject", "hasId", "hasTitle", "hasSpecs",
    "hasValidLength", "hasValidWidth", "hasValidWeight", "hasValidCapacity",
    "hasValidMaterial", "hasValidType", "hasValidPrice", "hasValidAccessories",
    "hasValidSeats", "hasValidSummary", "hasValidReviewDate"]

  predicate IsStringOrNumber(v: JsValue)
  {
    TypeOf(v) == "string" || TypeOf(v) == "number"
  }

  /** The values of the `validations` object, in declaration order.
      Reading `r.id` from `null` or `undefined` throws, so they are only
      defined for other values; `r.specs?.x` tolerates a nullish `specs`. */
  function Passes(review: JsValue): (p: seq<bool>)
    requires !IsNullish(review)
    ensures |p| == |CheckNames|
  {
    var specs := Get(review, "specs");
    [ TypeOf(review) == "object" && review != Null,
      TypeOf(Get(review, "id")) == "number",
      TypeOf(Get(review, "title")) == "string",
      TypeOf(specs) == "object" && specs != Null,
      IsStringOrNumber(OptGet(specs, "length")),
      IsStringOrNumber(OptGet(specs, "width")),
      IsStringOrNumber(OptGet(specs, "weight")),
      IsStringOrNumber(OptGet(specs, "capacity")),
      TypeOf(OptGet(specs, "material")) == "string",
      TypeOf(OptGet(specs, "type")) == "string",
      IsStringOrNumber(OptGet(specs, "price")),
      TypeOf(OptGet(specs, "accessories")) == "string",
      IsStringOrNumber(OptGet(specs, "seats")),
      TypeOf(Get(review, "summary")) == "string",
      TypeOf(Get(review, "reviewDate")) == "string" ]
  }

  /** The `validations` object as (name, passes) entries. */
  function Validations(review: JsValue): (v: seq<(string, bool)>)
    requires !IsNullish(review)
    ensures |v| == |CheckNames|
    ensures forall i :: 0 <= i < |v| ==> v[i].0 == CheckNames[i]
  {
    var p := Passes(review);
    seq(|CheckNames|, i requires 0 <= i < |CheckNames| => (CheckNames[i], p[i]))
  }

  /** `Object.entries(validations).filter(([, p]) => !p).map(([k]) => k)`. */
  function FailedNames(entries: seq<(string, bool)>): (r: seq<string>)
    ensures forall x :: x in r <==> exists i :: 0 <= i < |entries| && entries[i].0 == x && !entries[i].1
    ensures |r| == 0 <==> forall i :: 0 <= i < |entries| ==> entries[i].1
    ensures |r| <= |entries|
  {
    if |entries| == 0 then []
    else
      var rest := FailedNames(entries[1..]);
      assert forall i :: 1 <= i < |entries| ==> entries[i] == entries[1..][i - 1];
      if entries[0].1 then rest else [entries[0].0] + rest
  }

  /** `Object.values(validations).every(Boolean)`. */
  predicate AllPass(entries: seq<(string, bool)>)
  {
    forall i :: 0 <= i < |entries| ==> entries[i].1
  }

  /** What one call reports: the verdict, the names of the failed checks,
      and whether the failure was logged. */
  datatype Verdict = Verdict(valid: bool, failed: seq<string>, logged: bool)

  /** A call either returns a verdict or throws a TypeError naming the
      property whose read failed. */
  datatype Checked = Returned(verdict: Verdict) | Threw(property: string)

  function IsValidKayakReview(review: JsValue): (c: Checked)
    ensures c.Threw? <==> IsNullish(review)
    ensures c.Returned? ==> (c.verdict.valid <==> |c.verdict.failed| == 0)
    ensures c.Returned? ==> (c.verdict.logged <==> !c.verdict.valid)
    ensures c.Returned? ==> IsSubsequence(c.verdict.failed, CheckNames)
    ensures c.Returned? ==> forall x :: x in c.verdict.failed ==>
              exists i :: 0 <= i < |CheckNames| && CheckNames[i] == x && !Validations(review)[i].1
  {
    if IsNullish(review) then Threw("id")
    else
      var entries := Validations(review);
      var failed := FailedNames(entries);
      FailedAreOrderedNames(entries, CheckNames);
      Returned(Verdict(AllPass(entries), failed, |failed| > 0))
  }

  /** The failed names keep the declaration order of the checks. */
  lemma {:induction false} FailedAreOrderedNames(entries: seq<(string, bool)>, names: seq<string>)
    requires |entries| == |names|
    requires forall i :: 0 <= i < |entries| ==> entries[i].0 == names[i]
    ensures IsSubsequence(FailedNames(entries), names)
    decreases |entries|
  {
    if |entries| > 0 {
      FailedAreOrderedNames(entries[1..], names[1..]);
      var rest := FailedNames(entries[1..]);
      if !entries[0].1 {
        assert FailedNames(entries) == [names[0]] + rest;
        assert ([names[0]] + rest)[1..] == rest;
      }
    }
  }

  /** Every check fails on the name it reports, and every failing check is
      reported. */
  lemma FailedListIsExact(review: JsValue, name: string)
    requires !IsNullish(review)
    ensures name in IsValidKayakReview(review).verdict.failed <==>
            exists i :: 0 <= i < |CheckNames| && CheckNames[i] == name && !Validations(review)[i].1
  {
  }

  /** On every input that does not make it throw, this validator agrees
      with the one in the kayak route. */
  lemma ValidatorsAgree(review: JsValue)
    requires !IsNullish(review)
    ensures IsValidKayakReview(review).verdict.valid <==> KayakValidator.IsValidKayakReview(review)
  {
    ChecksDescribeRecords(review);
    KayakValidator.ValidatorAcceptsExactlyRecords(review);
  }

  /** All fifteen checks pass exactly on review records. */
  lemma ChecksDescribeRecords(review: JsValue)
    requires !IsNullish(review)
    ensures AllPass(Validations(review)) <==> KayakValidator.IsReviewRecord(review)
  {
    ChecksMatchValidator(review);
    KayakValidator.ValidatorAcceptsExactlyRecords(review);
  }

  /** The fifteen checks and the kayak route's conjunction read the same
      properties and test them alike. */
  lemma ChecksMatchValidator(review: JsValue)
    requires !IsNullish(review)
    ensures AllPass(Validations(review)) <==> KayakValidator.IsValidKayakReview(review)
  {
    var e := Validations(review);
    if AllPass(e) {
      assert e[0].1 && e[1].1 && e[2].1 && e[3].1 && e[4].1 && e[5].1 && e[6].1 && e[7].1;
      assert e[8].1 && e[9].1 && e[10].1 && e[11].1 && e[12].1 && e[13].1 && e[14].1;
    }
  }

  function Record(id: real, title: string, length: real, width: real, weight: real,
                  capacity: real, material: string, kind: string, price: real,
                  accessories: string, summary: string, reviewDate: string): JsValue
  {
    Obj(map[
      "id" := Number(id),
      "title" := Str(title),
      "specs" := Obj(map[
        "length" := Number(length),
        "width" := Number(width),
        "weight" := Number(weight),
        "capacity" := Number(capacity),
        "material" := Str(material),
        "type" := Str(kind),
        "price" := Number(price),
        "accessories" := Str(accessories),
        "seats" := Number(1.0)]),
      "summary" := Str(summary),
      "reviewDate" := Str(reviewDate)])
  }

  /** `staticKayakData`. */
  const StaticKayakData: seq<JsValue> := [PescadorPro, Vapor10, Pungo120]

  const PescadorPro: JsValue :=
    Record(1.0, "Perception Pescador Pro 12.0", 12.0, 32.5, 64.0, 375.0,
      "High-Density Polyethylene", "Fishing/Recreational", 939.0,
      "Adjustable seat, rod holders, tackle storage",
      "The Pescador Pro 12.0 offers excellent stability and features for fishing enthusiasts. Its removable stadium-style seat provides all-day comfort. The kayak tracks well and offers ample storage options.",
      "2024-02-15")

  const Vapor10: JsValue :=
    Record(2.0, "Old Town Vapor 10", 10.0, 28.5, 47.0, 325.0,
      "Single Layer Polyethylene", "Recreational", 699.0,
      "Comfort Flex seat, paddle keeper, cup holder",
      "The Old Town Vapor 10 is perfect for beginners and casual paddlers. It provides excellent stability and maneuverability in calm waters. The comfortable seat and easy-to-reach storage make it ideal for day trips.",
      "2024-01-20")

  const Pungo120: JsValue :=
    Record(3.0, "Wilderness Systems Pungo 120", 12.2, 29.0, 49.0, 325.0,
      "High-Grade Polyethylene", "Recreational/Touring", 1099.0,
      "Phase 3 AirPro seat, dashboard console, dry storage",
      "The Pungo 120 combines speed with stability in a versatile package. Its award-winning design includes a spacious cockpit and premium features. The kayak excels in both lakes and coastal waters.",
      "2024-03-01")

  /** `GET`: the JSON response carrying the static dataset. */
  datatype StaticResponse = StaticResponse(status: nat, body: seq<JsValue>)

  function HandleGet(): StaticResponse
  {
    StaticResponse(200, StaticKayakData)
  }

  /** Every record built by `Record` passes both validators with no failed
      check. */
  lemma RecordIsValid(id: real, title: string, length: real, width: real, weight: real,
                      capacity: real, material: string, kind: string, price: real,
                      accessories: string, summary: string, reviewDate: string)
    ensures var r := Record(id, title, length, width, weight, capacity, material, kind,
                            price, accessories, summary, reviewDate);
            && IsValidKayakReview(r) == Returned(Verdict(true, [], false))
            && KayakValidator.IsValidKayakReview(r)
  {
    var r := Record(id, title, length, width, weight, capacity, material, kind,
                    price, accessories, summary, reviewDate);
    assert KayakValidator.SpecsShape(r.fields["specs"].fields);
    assert KayakValidator.IsReviewRecord(r);
    ChecksDescribeRecords(r);
    KayakValidator.ValidatorAcceptsExactlyRecords(r);
  }

  /** The route serves three records with ids 1, 2, 3 in that order. */
  lemma StaticDataIds()
    ensures HandleGet().status == 200 && |HandleGet().body| == 3
    ensures forall i :: 0 <= i < 3 ==> HandleGet().body[i].Obj? && HandleGet().body[i].fields["id"] == Number((i + 1) as real)
  {
  }

  /** Every served record passes both validators with no failed check. */
  lemma StaticDataIsValid()
    ensures forall i :: 0 <= i < |HandleGet().body| ==> StaticRecordValid(HandleGet().body[i])
  {
    var b := HandleGet().body;
    forall i | 0 <= i < |b|
      ensures StaticRecordValid(b[i])
    {
      if i == 0 {
        PescadorProIsValid();
      } else if i == 1 {
        Vapor10IsValid();
      } else {
        Pungo120IsValid();
      }
    }
  }

  predicate StaticRecordValid(x: JsValue)
  {
    && IsValidKayakReview(x) == Returned(Verdict(true, [], false))
    && KayakValidator.IsValidKayakReview(x)
  }

  lemma PescadorProIsValid()
    ensures StaticRecordValid(PescadorPro)
  {
    RecordIsValid(1.0, "Perception Pescador Pro 12.0", 12.0, 32.5, 64.0, 375.0, "High-Density Polyethylene", "Fishing/Recreational", 939.0, "Adjustable seat, rod holders, tackle storage", "The Pescador Pro 12.0 offers excellent stability and features for fishing enthusiasts. Its removable stadium-style seat provides all-day comfort. The kayak tracks well and offers ample storage options.", "2024-02-15");
  }

  lemma Vapor10IsValid()
    ensures StaticRecordValid(Vapor10)
  {
    RecordIsValid(2.0, "Old Town Vapor 10", 10.0, 28.5, 47.0, 325.0, "Single Layer Polyethylene", "Recreational", 699.0, "Comfort Flex seat, paddle keeper, cup holder", "The Old Town Vapor 10 is perfect for beginners and casual paddlers. It provides excellent stability and maneuverability in calm waters. The comfortable seat and easy-to-reach storage make it ideal for day trips.", "2024-01-20");
  }

  lemma Pungo120IsValid()
    ensures StaticRecordValid(Pungo120)
  {
    RecordIsValid(3.0, "Wilderness Systems Pungo 120", 12.2, 29.0, 49.0, 325.0, "High-Grade Polyethylene", "Recreational/Touring", 1099.0, "Phase 3 AirPro seat, dashboard console, dry storage", "The Pungo 120 combines speed with stability in a versatile package. Its award-winning design includes a spacious cockpit and premium features. The kayak excels in both lakes and coastal waters.", "2024-03-01");
  }
}
