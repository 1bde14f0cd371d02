/**
  The guide-type tag of a result card: `getTagColor(guideType)` picks the
  tag's colours from the label, and the tag is drawn only for a non-empty
  label, with the label as its text.
 */
module TagColor {
  import opened Wrappers

  /** The colours `getTagColor` returns; only some styles carry a border. */
  datatype TagStyle = TagStyle(bg: string, text: string, border: Option<string>)

  /** The three labels that have their own colours, in the order they are tested. */
  const KnownGuideTypes: seq<string> := ["CVD", "White Paper", "Integration Guide"]

  const BlueStyle := TagStyle("#3b82f6", "#fff", None)
  const WhiteStyle := TagStyle("#ffffff", "#000", Some("1px solid #ddd"))
  const OrangeStyle := TagStyle("#f97316", "#fff", None)
  const GrayStyle := TagStyle("#e5e7eb", "#6b7280", None)

  /**
    `getTagColor`: blue for "CVD", white with a light border for "White
    Paper", orange for "Integration Guide", gray for every other label.
    Labels are compared exactly, with their case.
   */
  function GetTagColor(guideType: string): (style: TagStyle)
    ensures guideType == "CVD" ==> style == BlueStyle
    ensures guideType == "White Paper" ==> style == WhiteStyle
    ensures guideType == "Integration Guide" ==> style == OrangeStyle
    ensures style == GrayStyle <==> guideType !in KnownGuideTypes
    ensures style.border.Some? <==> guideType == "White Paper"
  {
    if guideType == "CVD" then BlueStyle
    else if guideType == "White Paper" then WhiteStyle
    else if guideType == "Integration Guide" then OrangeStyle
    else GrayStyle
  }

  /** The tag as drawn: its caption, its CSS class and the colours it is given. */
  datatype Tag = Tag(caption: string, className: string, bg: string, color: string, border: string)

  /**
    The tag of a card whose guide type is `guideType`: none for the empty
    label (`r.guide_type && ...`); otherwise the label itself, the class
    "white-paper-tag" for "White Paper" only, and the style's border or
    "none".
   */
  function RenderTag(guideType: string): (tag: Option<Tag>)
    ensures tag.None? <==> guideType == ""
    ensures tag.Some? ==> && tag.value.caption == guideType
                          && tag.value.bg == GetTagColor(guideType).bg
                          && tag.value.color == GetTagColor(guideType).text
                          && (tag.value.className == "white-paper-tag" <==> guideType == "White Paper")
                          && (tag.value.className == "" <==> guideType != "White Paper")
                          && (tag.value.border == "none" <==> guideType != "White Paper")
    ensures tag.Some? && GetTagColor(guideType).border.Some? ==> tag.value.border == GetTagColor(guideType).border.value
    ensures tag.Some? && guideType == "White Paper" ==> tag.value.border == WhiteStyle.border.value
  {
    if guideType == "" then None
    else
      var style := GetTagColor(guideType);
      Some(Tag(guideType,
               if guideType == "White Paper" then "white-paper-tag" else "",
               style.bg, style.text,
               match style.border case Some(b) => b case None => "none"))
  }

  /** The three known labels get three different styles, none of them the default. */
  lemma {:induction false} KnownStylesDistinct(a: string, b: string)
    requires a in KnownGuideTypes && b in KnownGuideTypes && a != b
    ensures GetTagColor(a) != GetTagColor(b)
    ensures GetTagColor(a) != GrayStyle
  {
  }
}
