/** The theme picker's codec between themes and the radio values "1", "2", "3". */
module Theme {

  datatype Theme = Light | Dark | System

  /** The radio items, in display order. */
  const Items: seq<string> := ["1", "2", "3"]

  /** `mapThemeToValue` */
  function ToValue(t: Theme): (v: string)
    ensures v in Items
  {
    match t
    case Light => "1"
    case Dark => "2"
    case System => "3"
  }

  /** `mapValueToTheme`: anything but the three item values means System. */
  function FromValue(v: string): Theme {
    if v == "1" then Light
    else if v == "2" then Dark
    else System
  }

  /** Decoding undoes encoding. */
  lemma ThemeRoundTrip(t: Theme)
    ensures FromValue(ToValue(t)) == t
  {
  }

  /** Encoding undoes decoding on the item values. */
  lemma ValueRoundTrip(v: string)
    requires v in Items
    ensures ToValue(FromValue(v)) == v
  {
  }

  /** Distinct themes select distinct items. */
  lemma ToValueInjective(a: Theme, b: Theme)
    requires ToValue(a) == ToValue(b)
    ensures a == b
  {
    ThemeRoundTrip(a);
    ThemeRoundTrip(b);
  }

  /** A value that is no item decodes to System. */
  lemma UnknownIsSystem(v: string)
    requires v !in Items
    ensures FromValue(v) == System
  {
  }

  /** The number of items drawn as checked for theme `t`. */
  function CheckedCount(items: seq<string>, t: Theme): nat {
    if items == [] then 0 else (if items[0] == ToValue(t) then 1 else 0) + CheckedCount(items[1..], t)
  }

  /** Exactly one item is checked, whatever the theme. */
  lemma ExactlyOneChecked(t: Theme)
    ensures CheckedCount(Items, t) == 1
  {
    assert Items[1..] == ["2", "3"];
    assert Items[1..][1..] == ["3"];
    assert Items[1..][1..][1..] == [];
  }
}
