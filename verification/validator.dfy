/** The type guard `isValidKayakReview` of the kayak route
    (app/api/kayaks/route.ts), and an independent description of the record
    shape it accepts. */
module KayakValidator {

  import opened JsValues

  /** `isNumberOrString`: the two representations accepted for a
      measurement, a price or a seat count. */
  predicate IsNumberOrString(v: JsValue)
  {
    TypeOf(v) == "number" || TypeOf(v) == "string"
  }

  /** The validator as the route writes it: two early exits, then one
      conjunction over the record and its `specs` object. */
  predicate IsValidKayakReview(review: JsValue)
  {
    if !Truthy(review) || TypeOf(review) != "object" then false
    else
      var specs := Get(review, "specs");
      if !Truthy(specs) || TypeOf(specs) != "object" then false
      else
        && TypeOf(Get(review, "id")) == "number"
        && TypeOf(Get(review, "title")) == "string"
        && TypeOf(specs) == "object"
        && specs != Null
        && IsNumberOrString(Get(specs, "length"))
        && IsNumberOrString(Get(specs, "width"))
        && IsNumberOrString(Get(specs, "weight"))
        && IsNumberOrString(Get(specs, "capacity"))
        && TypeOf(Get(specs, "material")) == "string"
        && TypeOf(Get(specs, "type")) == "string"
        && IsNumberOrString(Get(specs, "price"))
        && TypeOf(Get(specs, "accessories")) == "string"
        && IsNumberOrString(Get(specs, "seats"))
        && TypeOf(Get(review, "summary")) == "string"
        && TypeOf(Get(review, "reviewDate")) == "string"
  }

  predicate NumOrStr(v: JsValue)
  {
    v.Num? || v.Str?
  }

  /** A review record: a plain object whose fields have the kinds the
      prompt asks for, with `specs` itself a plain object. Arrays, which
      `typeof` also calls "object", are not records. */
  predicate IsReviewRecord(v: JsValue)
  {
    && v.Obj?
    && Field(v.fields, "id").Num?
    && Field(v.fields, "title").Str?
    && Field(v.fields, "specs").Obj?
    && SpecsShape(Field(v.fields, "specs").fields)
    && Field(v.fields, "summary").Str?
    && Field(v.fields, "reviewDate").Str?
  }

  predicate SpecsShape(s: map<string, JsValue>)
  {
    && NumOrStr(Field(s, "length"))
    && NumOrStr(Field(s, "width"))
    && NumOrStr(Field(s, "weight"))
    && NumOrStr(Field(s, "capacity"))
    && Field(s, "material").Str?
    && Field(s, "type").Str?
    && NumOrStr(Field(s, "price"))
    && Field(s, "accessories").Str?
    && NumOrStr(Field(s, "seats"))
  }

  /** The validator accepts exactly the review records. */
  lemma ValidatorAcceptsExactlyRecords(v: JsValue)
    ensures IsValidKayakReview(v) <==> IsReviewRecord(v)
  {
    if v.Obj? && Field(v.fields, "specs").Obj? {
      ObjectsWithSpecs(v);
    } else if v.Obj? {
      ObjectFields(v);
      var specs := Field(v.fields, "specs");
      if specs.Arr? {
        GetNamedKey(specs, "material");
      }
    } else if v.Arr? {
      GetNamedKey(v, "specs");
    }
  }

  /** For an object whose `specs` is an object, every test reads a field. */
  lemma ObjectsWithSpecs(v: JsValue)
    requires v.Obj? && Field(v.fields, "specs").Obj?
    ensures IsValidKayakReview(v) <==> IsReviewRecord(v)
  {
    ObjectFields(v);
    ObjectFields(Field(v.fields, "specs"));
  }


  /** The validator never accepts a value that is not a plain object, nor
      one whose `specs` is missing or not a plain object. */
  lemma ValidatorRejectsNonRecords(v: JsValue)
    ensures !v.Obj? ==> !IsValidKayakReview(v)
    ensures v.Obj? && !Field(v.fields, "specs").Obj? ==> !IsValidKayakReview(v)
  {
    ValidatorAcceptsExactlyRecords(v);
  }
}
