/**
 * The table cell renderers of client/src/components/Table/renderers.tsx that
 * compute a value rather than a date format.
 */
module Renderers {
  import opened Wrappers
  import Text

  /** The `...` suffix, in code units. */
  const Dots: seq<Text.CodeUnit> := [46, 46, 46]

  /**
   * `stringTrimRenderer`: a string longer than 20 code units is cut to its
   * first 20 followed by `...`; anything else (including null and the empty
   * string) is returned as it is. The cell is the code units of the string.
   */
  function StringTrim(value: Option<seq<Text.CodeUnit>>): (r: Option<seq<Text.CodeUnit>>)
    ensures r.None? <==> value.None?
    ensures value.Some? && |value.value| > 20 ==> r.value == value.value[..20] + Dots
    ensures value.Some? && |value.value| <= 20 ==> r == value
  {
    match value
    case None => None
    case Some(s) => if s != [] && |s| > 20 then Some(s[..20] + Dots) else value
  }

  /** A trimmed cell never exceeds 23 code units, and keeps the first 20 of the text. */
  lemma StringTrimBounded(s: seq<Text.CodeUnit>)
    ensures var t := StringTrim(Some(s)).value;
            && |t| <= (if |s| <= 20 then |s| else 23)
            && forall k :: 0 <= k < |t| && k < 20 ==> t[k] == s[k]
  {
  }

  /** Trimming is idempotent: the 23 code units of a trimmed cell trim to themselves. */
  lemma StringTrimIdempotent(value: Option<seq<Text.CodeUnit>>)
    ensures StringTrim(StringTrim(value)) == StringTrim(value)
  {
    if value.Some? && |value.value| > 20 {
      var s := value.value;
      assert (s[..20] + Dots)[..20] == s[..20];
    }
  }

  /**
   * On text inside the Basic Multilingual Plane, the cut falls after 20
   * characters: the cell is cut exactly when the text has more than 20.
   */
  lemma StringTrimOfBmpText(s: string)
    requires forall i :: 0 <= i < |s| ==> s[i] as int < 0x1_0000
    ensures StringTrim(Some(Text.Utf16(s))) == Some(if |s| > 20 then Text.Utf16(s[..20]) + Dots else Text.Utf16(s))
  {
    if |s| > 20 {
      Text.Utf16OfBmp(s, 20);
    } else {
      Text.Utf16OfBmp(s, 0);
    }
  }

  /** Characters outside the Basic Multilingual Plane count twice: a text of at most 20 of them can still be cut. */
  lemma StringTrimCountsUnits(s: string)
    requires forall i :: 0 <= i < |s| ==> s[i] as int >= 0x1_0000
    ensures |Text.Utf16(s)| == 2 * |s|
    ensures 10 < |s| ==> StringTrim(Some(Text.Utf16(s))).value == Text.Utf16(s)[..20] + Dots
  {
    Text.Utf16OfAstral(s);
  }

  datatype Item = Item(id: int, name: string)

  /** `idFromArrayRenderer(data)(value)`: the name of the first item with that id, else `(Empty)`. */
  function IdFromArray(data: seq<Item>, value: int): (r: string)
    ensures (exists k :: 0 <= k < |data| && data[k].id == value) ==>
              exists k :: 0 <= k < |data| && data[k].id == value && r == data[k].name
                          && forall j :: 0 <= j < k ==> data[j].id != value
    ensures (forall k :: 0 <= k < |data| ==> data[k].id != value) ==> r == "(Empty)"
  {
    if data == [] then "(Empty)"
    else if data[0].id == value then data[0].name
    else
      var r := IdFromArray(data[1..], value);
      assert forall k :: 1 <= k < |data| ==> data[k] == data[1..][k - 1];
      r
  }

  /** `boolRenderer`: `toString()` of a present value, `''` for null or undefined. */
  function BoolText(value: Option<bool>): (r: string)
    ensures value == Some(true) <==> r == "true"
    ensures value == Some(false) <==> r == "false"
    ensures value.None? <==> r == ""
  {
    match value
    case None => ""
    case Some(b) => if b then "true" else "false"
  }

  /** What `tagsRenderer` is given: an array of tag values, or anything else. */
  datatype TagsInput = TagArray(values: seq<string>) | NotAnArray

  datatype TagsCell = EmptyText | TagList(tags: seq<string>)

  /** `tagsRenderer`: one tag per value, and the empty text for a value that is not an array. */
  function Tags(input: TagsInput): (r: TagsCell)
    ensures input.NotAnArray? <==> r == EmptyText
    ensures input.TagArray? ==> r == TagList(input.values)
  {
    match input
    case NotAnArray => EmptyText
    case TagArray(vs) => TagList(vs)
  }
}
