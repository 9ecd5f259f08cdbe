/** The table description sent to the host ahead of the response data. */
module Describe {

  /** A field's data type in the host protocol: string (0) or numeric (1). */
  datatype FieldType = StringField | NumericField

  datatype Field = Field(name: string, dataType: FieldType)

  datatype TableDescription = TableDescription(name: string, numberOfRows: nat, fields: seq<Field>)

  function FieldNames(fields: seq<Field>): (names: seq<string>)
    ensures |names| == |fields|
    ensures forall i :: 0 <= i < |fields| ==> names[i] == fields[i].name
  {
    seq(|fields|, i requires 0 <= i < |fields| => fields[i].name)
  }

  /** Describes a response of `numberOfRows` rows for the operation
      `variant`: the six rule columns for `"apriori"`, of which the last three
      are numeric; the three string columns for `"predict"`; no fields for
      any other variant. */
  function DescribeTable(variant: string, numberOfRows: nat): (d: TableDescription)
    ensures d.name == "SSE-Response" && d.numberOfRows == numberOfRows
    ensures variant == "apriori" ==>
      && FieldNames(d.fields) == ["rule", "rule_lhs", "rule_rhs", "support", "confidence", "lift"]
      && forall i :: 0 <= i < |d.fields| ==> (d.fields[i].dataType == NumericField <==> i >= 3)
    ensures variant == "predict" ==>
      && FieldNames(d.fields) == ["model_name", "key", "prediction"]
      && forall i :: 0 <= i < |d.fields| ==> d.fields[i].dataType == StringField
    ensures variant != "apriori" && variant != "predict" ==> d.fields == []
  {
    var fields :=
      if variant == "apriori" then
        [Field("rule", StringField), Field("rule_lhs", StringField), Field("rule_rhs", StringField),
         Field("support", NumericField), Field("confidence", NumericField), Field("lift", NumericField)]
      else if variant == "predict" then
        [Field("model_name", StringField), Field("key", StringField), Field("prediction", StringField)]
      else [];
    TableDescription("SSE-Response", numberOfRows, fields)
  }
}
