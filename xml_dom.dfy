/**
 * The XML element tree the library files are read from and written to.
 * Only what an attribute element needs is modelled: a tag name, string
 * attributes, a text content and child elements.
 */
module XmlDom {
  import opened Wrappers

  datatype XmlDomElement = XmlDomElement(
    name: string,
    attributes: map<string, string>,
    text: string,
    children: seq<XmlDomElement>)

  /** The value of attribute `name`, or the empty string when it is absent. */
  function AttributeOrEmpty(e: XmlDomElement, name: string): string
  {
    if name in e.attributes then e.attributes[name] else ""
  }

  /**
   * `getAttribute(name, true)`: the attribute's value, which must be present
   * and non-empty; `None` stands for the parse error the element raises.
   */
  function GetRequiredAttribute(e: XmlDomElement, name: string): (r: Option<string>)
    ensures r.Some? <==> name in e.attributes && e.attributes[name] != ""
    ensures r.Some? ==> r.value == e.attributes[name] && r.value == AttributeOrEmpty(e, name)
  {
    var value := AttributeOrEmpty(e, name);
    if value == "" then None else Some(value)
  }

  /** The child that `appendTextChild(name, text)->setAttribute("locale", locale)` creates. */
  function LocaleTextChild(name: string, locale: string, text: string): XmlDomElement
  {
    XmlDomElement(name, map["locale" := locale], text, [])
  }
}
