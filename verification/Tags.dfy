/** The tag enumeration of the parser, ordered so that the tag sets tested by
    gumbo-parser/src/parser.c are ranges. */
module Tags {

  datatype Namespace = Html | Svg | MathMl

  newtype Tag = t: int | 0 <= t < 200

  const UNKNOWN: Tag := 0

  // The tags handled by the adoption agency (parser.c:3180-3186), in
  // alphabetical order: a, b, big, code, em, font, i, nobr, s, small, strike,
  // strong, tt and u.
  const A: Tag := 1
  const EM: Tag := 5
  const I: Tag := 7
  const U: Tag := 14

  // Special elements that also end the default scope: applet, caption, html,
  // table, td, th, marquee, object and template.
  const APPLET: Tag := 20
  const HTML: Tag := 22
  const TABLE: Tag := 23
  const TEMPLATE: Tag := 28

  // The other special elements of the HTML namespace (parser.c:1821-1853), in
  // alphabetical order from address, 29, to xmp.
  const BODY: Tag := 37
  const DD: Tag := 43
  const DIV: Tag := 46
  const DT: Tag := 48
  const LI: Tag := 70
  const P: Tag := 80
  const TBODY: Tag := 89
  const TFOOT: Tag := 91
  const THEAD: Tag := 92
  const TITLE: Tag := 93
  const TR: Tag := 94
  const XMP: Tag := 97

  // Elements with implied end tags that are not special: optgroup, option, rb,
  // rp, rt and rtc.
  const OPTGROUP: Tag := 120
  const RTC: Tag := 125

  // Elements of the other namespaces that are special and end a scope: mi, mo,
  // mn, ms, mtext and annotation-xml in MathML, title and the two below in SVG.
  const MI: Tag := 140
  const ANNOTATION_XML: Tag := 145
  const FOREIGNOBJECT: Tag := 150
  const DESC: Tag := 151

  predicate IsFormattingTag(tag: Tag)
  {
    A <= tag <= U
  }

  // TAG_MATHML(MI) ... TAG_SVG(TITLE)
  predicate IsForeignBoundary(ns: Namespace, tag: Tag)
  {
    (ns == MathMl && MI <= tag <= ANNOTATION_XML)
    || (ns == Svg && (tag == FOREIGNOBJECT || tag == DESC || tag == TITLE))
  }

  // is_special_node
  predicate IsSpecialTag(ns: Namespace, tag: Tag)
  {
    (ns == Html && APPLET <= tag <= XMP) || IsForeignBoundary(ns, tag)
  }

  // DEFAULT_SCOPE_TAGS
  predicate IsScopeTag(ns: Namespace, tag: Tag)
  {
    (ns == Html && APPLET <= tag <= TEMPLATE) || IsForeignBoundary(ns, tag)
  }

  // generate_implied_end_tags
  predicate HasImpliedEndTag(ns: Namespace, tag: Tag)
  {
    ns == Html
    && (tag == DD || tag == DT || tag == LI || tag == P || OPTGROUP <= tag <= RTC)
  }

  // The parents for which foster parenting applies.
  predicate IsTablePartTag(ns: Namespace, tag: Tag)
  {
    ns == Html && (tag == TABLE || tag == TBODY || tag == TFOOT || tag == THEAD || tag == TR)
  }
}
