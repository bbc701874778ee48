/** Concrete attribute elements and what constructing an attribute from them gives. */
module AttributeExamples {
  import opened Wrappers
  import opened XmlDom
  import opened LibraryBaseElement
  import opened Library

  /** An `<attribute>` element with one English entry of each kind. */
  function Element(key: string, typeName: string, name: string, description: string): XmlDomElement
  {
    XmlDomElement(
      "attribute", map["key" := key, "type" := typeName], "",
      [ LocaleTextChild("name", "en_US", name),
        LocaleTextChild("description", "en_US", description),
        LocaleTextChild("default_value", "en_US", "10k") ])
  }

  /** Reading three children is three steps from the empty map. */
  lemma ReadThreeChildren(c0: XmlDomElement, c1: XmlDomElement, c2: XmlDomElement, tag: string)
    ensures ReadLocaleNodes([c0, c1, c2], tag)
            == EnterLocaleNode(EnterLocaleNode(EnterLocaleNode(map[], c0, tag), c1, tag), c2, tag)
  {
    assert [c0][..0] == [];
    assert ReadLocaleNodes([c0], tag) == EnterLocaleNode(map[], c0, tag);
    assert [c0, c1][..1] == [c0];
    assert ReadLocaleNodes([c0, c1], tag) == EnterLocaleNode(EnterLocaleNode(map[], c0, tag), c1, tag);
    assert [c0, c1, c2][..2] == [c0, c1];
  }

  /** The three locale maps of `Element` read back. */
  lemma ElementLocaleMaps(key: string, typeName: string, name: string, description: string)
    ensures ReadLocaleDomNodes(Element(key, typeName, name, description), "name") == map["en_US" := name]
    ensures ReadLocaleDomNodes(Element(key, typeName, name, description), "description")
            == map["en_US" := description]
    ensures ReadLocaleDomNodes(Element(key, typeName, name, description), "default_value")
            == map["en_US" := "10k"]
  {
    var cs := Element(key, typeName, name, description).children;
    assert LocaleOf(cs[0]) == LocaleOf(cs[1]) == LocaleOf(cs[2]) == "en_US";
    ReadThreeChildren(cs[0], cs[1], cs[2], "name");
    ReadThreeChildren(cs[0], cs[1], cs[2], "description");
    ReadThreeChildren(cs[0], cs[1], cs[2], "default_value");
  }

  /** A resistance attribute with English texts is read as given. */
  lemma ResistanceAttributeIsRead()
    ensures FromXmlDomElement(Element("R1", "resistance", "Resistance", "Main resistance value"))
            == Success(Attribute("R1", Resistance, map["en_US" := "Resistance"],
                                 map["en_US" := "Main resistance value"], map["en_US" := "10k"]))
  {
    ElementLocaleMaps("R1", "resistance", "Resistance", "Main resistance value");
  }

  /** An empty English description is present, and so accepted. */
  lemma EmptyDescriptionIsAccepted()
    ensures FromXmlDomElement(Element("R1", "length", "Length", "")).Success?
  {
    ElementLocaleMaps("R1", "length", "Length", "");
  }

  /** An empty English name fails the validity check. */
  lemma EmptyNameIsRejected()
    ensures FromXmlDomElement(Element("R1", "length", "", "Length")) == Failure(LogicError)
  {
    ElementLocaleMaps("R1", "length", "", "Length");
  }

  /** An unknown type name is reported with the offending string. */
  lemma UnknownTypeIsRejected()
    ensures FromXmlDomElement(Element("R1", "bogus", "Bogus", "")) == Failure(InvalidType("bogus"))
  {
  }

  /** An empty key is refused when the key attribute is read. */
  lemma EmptyKeyIsRejected()
    ensures FromXmlDomElement(Element("", "string", "Key", "")) == Failure(MissingAttribute("key"))
  {
  }

  /** Without any English name the validity check fails. */
  lemma MissingEnglishNameIsRejected()
    ensures FromXmlDomElement(
              XmlDomElement("attribute", map["key" := "R1", "type" := "string"], "",
                            [ LocaleTextChild("name", "de_DE", "Widerstand"),
                              LocaleTextChild("description", "en_US", ""),
                              LocaleTextChild("default_value", "en_US", "") ]))
            == Failure(LogicError)
  {
    var e := XmlDomElement("attribute", map["key" := "R1", "type" := "string"], "",
                           [ LocaleTextChild("name", "de_DE", "Widerstand"),
                             LocaleTextChild("description", "en_US", ""),
                             LocaleTextChild("default_value", "en_US", "") ]);
    ReadLocaleNodesSpec(e.children, "name");
    assert "en_US" !in ReadLocaleDomNodes(e, "name");
  }
}
