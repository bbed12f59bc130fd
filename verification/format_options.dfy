/** Course options carried over when a course is switched to this format
    (`update_course_format_options`). */
module FormatOptions {
  import opened Optional

  /** The value of one course format option. */
  datatype OptionValue = IntValue(i: int) | TextValue(t: string)

  /** Option values by option name. */
  type OptionData = map<string, OptionValue>

  /** `TEMPLATETOPIC_NOT`: the section summary is not a template. */
  const TemplateTopicNot := 0
  /** `TABSVIEW_DEFAULT`: horizontal tabs. */
  const TabsViewDefault := 0

  /** The fixed default for the four options that get one when neither the
      submitted data nor the previous course has them. */
  function SwitchDefault(key: string): Option<OptionValue> {
    if key == "hidetabsbar" then Some(IntValue(0))
    else if key == "templatetopic" then Some(IntValue(TemplateTopicNot))
    else if key == "templatetopic_icons" then Some(IntValue(0))
    else if key == "tabsview" then Some(IntValue(TabsViewDefault))
    else None
  }

  /** One turn of the loop over the format's option names: a name missing from
      `data` is copied from the previous course, or else given its fixed default. */
  function FillOne(k: string, data: OptionData, oldCourse: OptionData): (r: OptionData)
    ensures forall j :: j in data ==> j in r && r[j] == data[j]
    ensures forall j :: j in r ==> j in data || j == k
    ensures k !in data && k in oldCourse ==> k in r && r[k] == oldCourse[k]
    ensures k !in data && k !in oldCourse && SwitchDefault(k).Some? ==> k in r && r[k] == SwitchDefault(k).value
  {
    if k in data then data
    else if k in oldCourse then data[k := oldCourse[k]]
    else match SwitchDefault(k)
      case Some(v) => data[k := v]
      case None => data
  }

  /** The whole loop: every name of `keys` missing from `data` is filled in turn. */
  function FillMissing(keys: seq<string>, data: OptionData, oldCourse: OptionData): (r: OptionData)
    ensures forall k :: k in data ==> k in r && r[k] == data[k]
    ensures forall k :: k in r ==> k in data || k in keys
    ensures forall k :: k in keys && k !in data && k in oldCourse ==> k in r && r[k] == oldCourse[k]
    ensures forall k :: k in keys && k !in data && k !in oldCourse && SwitchDefault(k).Some? ==>
              k in r && r[k] == SwitchDefault(k).value
    ensures forall k :: k !in data && k !in oldCourse && SwitchDefault(k).None? ==> k !in r
    decreases |keys|
  {
    if |keys| == 0 then data
    else
      var r := FillMissing(keys[1..], FillOne(keys[0], data, oldCourse), oldCourse);
      assert forall j :: j in keys ==> j == keys[0] || j in keys[1..];
      r
  }

  /** The option data handed on for saving; the back-fill happens only when the
      previous course is given. */
  function UpdateCourseFormatOptions(keys: seq<string>, data: OptionData, oldCourse: Option<OptionData>): (r: OptionData)
    ensures oldCourse.None? ==> r == data
    ensures forall k :: k in data ==> k in r && r[k] == data[k]
  {
    match oldCourse
    case None => data
    case Some(previous) => FillMissing(keys, data, previous)
  }

  /** Filling twice is filling once: the second pass finds nothing left to fill. */
  lemma {:induction false} UpdateIdempotent(keys: seq<string>, data: OptionData, oldCourse: Option<OptionData>)
    ensures var once := UpdateCourseFormatOptions(keys, data, oldCourse);
            UpdateCourseFormatOptions(keys, once, oldCourse) == once
  {
    var once := UpdateCourseFormatOptions(keys, data, oldCourse);
    var twice := UpdateCourseFormatOptions(keys, once, oldCourse);
    if oldCourse.Some? {
      var previous := oldCourse.value;
      forall k | k in twice ensures k in once {
        if k in data || k in previous || SwitchDefault(k).Some? {
        }
      }
      assert twice.Keys == once.Keys;
    }
  }
}
