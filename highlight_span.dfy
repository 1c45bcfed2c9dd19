/**
 * The raw HTML that the highlight transform emits for one captured text.
 * The editor carries two versions of the transform: the current one puts a
 * `data-popover` attribute with a hover label on the span, the earlier
 * (backup) one does not and has a slightly shorter inline style.
 */
module HighlightSpan {
  import opened Wrappers

  /** Which copy of the editor emitted the span. */
  datatype Variant = Current | Backup

  const SpanClass := "custom-highlight"

  const CurrentStyle :=
    "background-color: #ffeb3b; color: #333; padding: 2px 4px; border-radius: 3px; "
    + "font-weight: 500; box-shadow: 0 1px 3px rgba(0,0,0,0.1); cursor: help;"

  const BackupStyle :=
    "background-color: #ffeb3b; color: #333; padding: 2px 4px; border-radius: 3px; "
    + "font-weight: 500; box-shadow: 0 1px 3px rgba(0,0,0,0.1);"

  const LabelLead := "This is highlighted text: \""

  /** The hover label of the current version: `This is highlighted text: "<inner>"`. */
  function PopoverLabel(inner: string): (r: string)
    ensures |r| == |LabelLead| + |inner| + 1
    ensures r[..|LabelLead|] == LabelLead && r[|r| - 1] == '"'
    ensures r[|LabelLead|..|r| - 1] == inner
  {
    LabelLead + inner + "\""
  }

  /** One attribute as the template writes it: ` name="value"`. */
  function Attr(name: string, value: string): string {
    " " + name + "=\"" + value + "\""
  }

  const SpanOpen := "<span"
  const SpanClose := "</span>"

  /** The span's template literal, as each version writes it, attribute by attribute. */
  function SpanHtml(v: Variant, inner: string): string {
    match v
    case Current =>
      SpanOpen + Attr("class", SpanClass) + Attr("data-popover", PopoverLabel(inner))
      + Attr("style", CurrentStyle) + ">" + inner + SpanClose
    case Backup =>
      SpanOpen + Attr("class", SpanClass) + Attr("style", BackupStyle) + ">" + inner + SpanClose
  }

  /** Attribute name/value pairs of the span, in source order. */
  function Attributes(v: Variant, inner: string): (r: seq<(string, string)>)
    ensures |r| >= 2 && r[0] == ("class", SpanClass) && r[|r| - 1].0 == "style"
  {
    match v
    case Current => [("class", SpanClass), ("data-popover", PopoverLabel(inner)), ("style", CurrentStyle)]
    case Backup => [("class", SpanClass), ("style", BackupStyle)]
  }

  function RenderAttributes(attrs: seq<(string, string)>): string
    decreases |attrs|
  {
    if attrs == [] then "" else Attr(attrs[0].0, attrs[0].1) + RenderAttributes(attrs[1..])
  }

  /** The template literal is a span element with those attributes whose body is
      the captured text; the backup span has no `data-popover` attribute and the
      current one carries the hover label in it. */
  lemma SpanStructure(v: Variant, inner: string)
    ensures SpanHtml(v, inner)
      == SpanOpen + RenderAttributes(Attributes(v, inner)) + ">" + inner + SpanClose
    ensures v == Backup <==> forall k :: 0 <= k < |Attributes(v, inner)| ==>
      Attributes(v, inner)[k].0 != "data-popover"
    ensures v == Current ==> Attributes(v, inner)[1] == ("data-popover", PopoverLabel(inner))
  {
    var a := Attributes(v, inner);
    match v
    case Current =>
      var a0, a1, a2 := Attr("class", SpanClass), Attr("data-popover", PopoverLabel(inner)),
        Attr("style", CurrentStyle);
      assert a[1..][1..] == a[2..] && a[2..][1..] == [];
      assert RenderAttributes(a[2..]) == a2 + "";
      assert RenderAttributes(a[1..]) == a1 + (a2 + "");
      assert RenderAttributes(a) == a0 + (a1 + (a2 + ""));
      Regroup4(SpanOpen, a0, a1, a2, ">", inner, SpanClose);
      assert a[1].0 == "data-popover";
    case Backup =>
      var a0, a1 := Attr("class", SpanClass), Attr("style", BackupStyle);
      assert a[1..][1..] == [];
      assert RenderAttributes(a[1..]) == a1 + "";
      assert RenderAttributes(a) == a0 + (a1 + "");
      Regroup3(SpanOpen, a0, a1, ">", inner, SpanClose);
      assert a[0].0 != "data-popover" && a[1].0 != "data-popover";
  }

  lemma Regroup4<T>(p: seq<T>, a: seq<T>, b: seq<T>, c: seq<T>, g: seq<T>, x: seq<T>, q: seq<T>)
    ensures p + (a + (b + (c + []))) + g + x + q == p + a + b + c + g + x + q
  {
    assert c + [] == c;
  }

  lemma Regroup3<T>(p: seq<T>, a: seq<T>, b: seq<T>, g: seq<T>, x: seq<T>, q: seq<T>)
    ensures p + (a + (b + [])) + g + x + q == p + a + b + g + x + q
  {
    assert b + [] == b;
  }

  /** Regrouping the current span around the two copies of the capture. */
  lemma RegroupCurrent<T>(c: seq<T>, n: seq<T>, ll: seq<T>, x: seq<T>, q: seq<T>,
                          st: seq<T>, g: seq<T>, cl: seq<T>)
    ensures c + (n + (ll + x + q) + q) + st + g + x + cl
         == (c + n + ll) + x + ((q + q + st + g) + x + cl)
  {
  }

  /** The fixed text in front of the first copy of the captured text. */
  function Lead(v: Variant): string {
    match v
    case Current => SpanOpen + Attr("class", SpanClass) + DataPopoverOpen + LabelLead
    case Backup => SpanOpen + Attr("class", SpanClass) + Attr("style", BackupStyle) + ">"
  }

  /** The fixed text between the two copies (current version only). */
  const CurrentMiddle := "\"" + "\"" + Attr("style", CurrentStyle) + ">"

  /** ` data-popover="`, the start of the popover attribute. */
  const DataPopoverOpen := " " + "data-popover" + "=\""

  /** How many times the captured text occurs in the span. */
  function Copies(v: Variant): nat {
    if v == Current then 2 else 1
  }

  /** Number of characters of the span that do not come from the capture. */
  function FixedLength(v: Variant): nat {
    |Lead(v)| + (if v == Current then |CurrentMiddle| else 0) + |SpanClose|
  }

  lemma SliceMiddle<T>(a: seq<T>, x: seq<T>, b: seq<T>)
    ensures (a + x + b)[|a|..|a| + |x|] == x
  {
  }

  lemma SpanShape(v: Variant, inner: string)
    ensures v == Current ==> SpanHtml(v, inner) == Lead(v) + inner + (CurrentMiddle + inner + SpanClose)
    ensures v == Backup ==> SpanHtml(v, inner) == Lead(v) + inner + SpanClose
    ensures |SpanHtml(v, inner)| == FixedLength(v) + Copies(v) * |inner|
    ensures SpanHtml(v, inner)[|Lead(v)|..|Lead(v)| + |inner|] == inner
  {
    match v
    case Current =>
      var c := SpanOpen + Attr("class", SpanClass);
      var n := DataPopoverOpen;
      var q := "\"";
      var st := Attr("style", CurrentStyle);
      assert Attr("data-popover", PopoverLabel(inner)) == n + (LabelLead + inner + q) + q;
      RegroupCurrent(c, n, LabelLead, inner, q, st, ">", SpanClose);
      SliceMiddle(Lead(v), inner, CurrentMiddle + inner + SpanClose);
    case Backup =>
      SliceMiddle(Lead(v), inner, SpanClose);
  }

  /** Reads the captured text back out of a span (the inverse of SpanHtml). */
  function SpanInner(v: Variant, html: string): (r: Option<string>)
    ensures r.Some? ==> SpanHtml(v, r.value) == html
  {
    var fixed := FixedLength(v);
    if |html| < fixed || (|html| - fixed) % Copies(v) != 0 then None
    else
      var n := (|html| - fixed) / Copies(v);
      var lead := |Lead(v)|;
      if lead + n <= |html| && SpanHtml(v, html[lead..lead + n]) == html then
        Some(html[lead..lead + n])
      else
        None
  }

  /** Decoding a span gives back the text it was built from. */
  lemma SpanRoundTrip(v: Variant, inner: string)
    ensures SpanInner(v, SpanHtml(v, inner)) == Some(inner)
  {
    SpanShape(v, inner);
  }

  /** Different captures give different spans. */
  lemma SpanInjective(v: Variant, a: string, b: string)
    requires SpanHtml(v, a) == SpanHtml(v, b)
    ensures a == b
  {
    SpanRoundTrip(v, a);
    SpanRoundTrip(v, b);
  }
}
