/**
 * `parseDrugDetail` of the seeding script: a dose, volume or duration
 * string `"<value> <unit>"` is split at its last space. A string with no
 * space is all value; a falsy argument gives two empty strings.
 */
module Seed {
  import opened Common
  import opened Strings

  datatype Detail = Detail(value: string, unit: string)

  /** `parseDrugDetail(detailString)`; `None` stands for `undefined` and `null`. */
  function ParseDrugDetail(detail: Option<string>): (r: Detail)
    ensures !Truthy(detail) ==> r == Detail("", "")
    ensures Truthy(detail) && ' ' !in detail.value ==> r == Detail(detail.value, "")
    ensures Truthy(detail) && ' ' in detail.value ==> r.value + " " + r.unit == detail.value && ' ' !in r.unit
  {
    if !Truthy(detail) then Detail("", "")
    else
      var parts := Split(detail.value, ' ');
      if |parts| > 1 then
        var init := parts[..|parts| - 1];
        assert parts == init + [parts[|parts| - 1]];
        JoinSnoc(init, parts[|parts| - 1], ' ');
        Detail(Join(init, ' '), parts[|parts| - 1])
      else Detail(detail.value, "")
  }

  /** Parsing recovers a value and a unit joined by one space, whenever the unit has no space. */
  lemma ParseJoined(value: string, unit: string)
    requires ' ' !in unit
    ensures ParseDrugDetail(Some(value + " " + unit)) == Detail(value, unit)
  {
    var s := value + " " + unit;
    assert s[|value|] == ' ';
    var r := ParseDrugDetail(Some(s));
    LastSeparatorUnique(r.value, r.unit, value, unit, ' ');
  }

  /** Several words keep all but the last as the value. */
  lemma ParseSeveralWords()
    ensures ParseDrugDetail(Some("AUC 5-6 mg")) == Detail("AUC 5-6", "mg")
  {
    ParseJoined("AUC 5-6", "mg");
    assert "AUC 5-6" + " " + "mg" == "AUC 5-6 mg";
  }

  /** A trailing space leaves an empty unit. */
  lemma ParseTrailingSpace()
    ensures ParseDrugDetail(Some("400 ")) == Detail("400", "")
  {
    ParseJoined("400", "");
    assert "400" + " " + "" == "400 ";
  }
}
