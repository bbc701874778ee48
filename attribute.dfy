/**
 * `library::Attribute`: a typed, localizable key/value attribute of a library
 * component, read from and written to an `<attribute>` XML element.
 */
module Library {
  import opened Wrappers
  import opened XmlDom
  import opened LibraryBaseElement

  /** `Attribute::Type_t`: the closed set of attribute value types. */
  datatype AttributeType = String | Length | Resistance | Capacitance | Inductance

  /** The ways reading or writing an attribute fails. */
  datatype Error =
    | MissingAttribute(name: string)  // getAttribute(name, true) found the XML attribute absent or empty
    | InvalidType(value: string)      // stringToType met a string that names no type
    | LogicError                      // the validity check failed

  /** The fields mKey, mType, mNames, mDescriptions and mDefaultValues. */
  datatype Attribute = Attribute(
    key: string,
    attrType: AttributeType,
    names: map<string, string>,
    descriptions: map<string, string>,
    defaultValues: map<string, string>)

  /** The locale every attribute must provide. */
  const DefaultLocale := "en_US"

  /** The five type names of the XML format. */
  const TypeNames: set<string> := {"string", "length", "resistance", "capacitance", "inductance"}

  /** The value for `locale`, or the empty string when it is absent (`QMap::value`). */
  function ValueOrEmpty(m: map<string, string>, locale: string): string
  {
    if locale in m then m[locale] else ""
  }

  /** `stringToType`: accepts exactly the five type names, and `typeToString` inverts it. */
  function StringToType(s: string): (r: Result<AttributeType, Error>)
    ensures r.Success? <==> s in TypeNames
    ensures r.Failure? ==> r.error == InvalidType(s)
    ensures r.Success? ==> TypeToString(r.value) == s
  {
    if s == "string" then Success(String)
    else if s == "length" then Success(Length)
    else if s == "resistance" then Success(Resistance)
    else if s == "capacitance" then Success(Capacitance)
    else if s == "inductance" then Success(Inductance)
    else Failure(InvalidType(s))
  }

  /** `typeToString`: total over the five types, always one of the five names. */
  function TypeToString(t: AttributeType): (s: string)
    ensures s in TypeNames
  {
    match t
    case String => "string"
    case Length => "length"
    case Resistance => "resistance"
    case Capacitance => "capacitance"
    case Inductance => "inductance"
  }

  /**
   * `checkAttributesValidity`: a non-empty key, a non-empty "en_US" name, and
   * "en_US" entries (possibly empty) among the descriptions and default values.
   */
  function CheckAttributesValidity(a: Attribute): (ok: bool)
    ensures ok <==>
              && a.key != ""
              && DefaultLocale in a.names && a.names[DefaultLocale] != ""
              && DefaultLocale in a.descriptions
              && DefaultLocale in a.defaultValues
  {
    if a.key == "" then false
    else if ValueOrEmpty(a.names, DefaultLocale) == "" then false
    else if DefaultLocale !in a.descriptions then false
    else if DefaultLocale !in a.defaultValues then false
    else true
  }

  /**
   * The constructor `Attribute(const XmlDomElement&)`: reads the key, the type
   * and the three locale maps, then validates them. It fails, with the first
   * error met, or yields an attribute that passes the validity check.
   */
  function FromXmlDomElement(e: XmlDomElement): (r: Result<Attribute, Error>)
    ensures r.Success? <==>
              && AttributeOrEmpty(e, "key") != ""
              && AttributeOrEmpty(e, "type") in TypeNames
              && ValueOrEmpty(ReadLocaleDomNodes(e, "name"), DefaultLocale) != ""
              && DefaultLocale in ReadLocaleDomNodes(e, "description")
              && DefaultLocale in ReadLocaleDomNodes(e, "default_value")
    ensures r.Success? ==>
              && CheckAttributesValidity(r.value)
              && r.value.key == AttributeOrEmpty(e, "key")
              && TypeToString(r.value.attrType) == AttributeOrEmpty(e, "type")
              && r.value.names == ReadLocaleDomNodes(e, "name")
              && r.value.descriptions == ReadLocaleDomNodes(e, "description")
              && r.value.defaultValues == ReadLocaleDomNodes(e, "default_value")
    ensures AttributeOrEmpty(e, "key") == "" ==> r == Failure(MissingAttribute("key"))
    ensures AttributeOrEmpty(e, "key") != "" && AttributeOrEmpty(e, "type") == "" ==>
              r == Failure(MissingAttribute("type"))
    ensures AttributeOrEmpty(e, "key") != "" && AttributeOrEmpty(e, "type") != ""
            && AttributeOrEmpty(e, "type") !in TypeNames ==>
              r == Failure(InvalidType(AttributeOrEmpty(e, "type")))
    ensures AttributeOrEmpty(e, "key") != "" && AttributeOrEmpty(e, "type") in TypeNames ==>
              r.Success? || r == Failure(LogicError)
  {
    match GetRequiredAttribute(e, "key")
    case None => Failure(MissingAttribute("key"))
    case Some(key) =>
      match GetRequiredAttribute(e, "type")
      case None => Failure(MissingAttribute("type"))
      case Some(typeName) =>
        match StringToType(typeName)
        case Failure(err) => Failure(err)
        case Success(t) =>
          var a := Attribute(
            key, t,
            ReadLocaleDomNodes(e, "name"),
            ReadLocaleDomNodes(e, "description"),
            ReadLocaleDomNodes(e, "default_value"));
          if CheckAttributesValidity(a) then Success(a) else Failure(LogicError)
  }

  /** `getName(locale)`: delegates to the locale lookup on the names. */
  function GetName(a: Attribute, locale: string, localeStringFromList: LocaleLookup): string
  {
    localeStringFromList(a.names, locale)
  }

  /** `getDescription(locale)`: delegates to the locale lookup on the descriptions. */
  function GetDescription(a: Attribute, locale: string, localeStringFromList: LocaleLookup): string
  {
    localeStringFromList(a.descriptions, locale)
  }

  /** `getDefaultValue(locale)`: delegates to the locale lookup on the default values. */
  function GetDefaultValue(a: Attribute, locale: string, localeStringFromList: LocaleLookup): string
  {
    localeStringFromList(a.defaultValues, locale)
  }

  /** One child per entry of `m`, tagged `tag`, carrying the entry's locale and text. */
  ghost function LocaleNodes(tag: string, m: map<string, string>, locales: set<string>): set<XmlDomElement>
  {
    set locale | locale in locales && locale in m :: LocaleTextChild(tag, locale, m[locale])
  }

  /** All the children the serialiser must emit for `a`. */
  ghost function LocaleChildren(a: Attribute): set<XmlDomElement>
  {
    LocaleNodes("name", a.names, a.names.Keys)
    + LocaleNodes("description", a.descriptions, a.descriptions.Keys)
    + LocaleNodes("default_value", a.defaultValues, a.defaultValues.Keys)
  }

  /**
   * `e` is an `<attribute>` element written for `a`: the key and type as XML
   * attributes, and exactly one locale child per entry of the three maps, in
   * some order, and nothing else.
   */
  ghost predicate IsSerializationOf(e: XmlDomElement, a: Attribute)
  {
    && e.name == "attribute"
    && e.attributes == map["key" := a.key, "type" := TypeToString(a.attrType)]
    && e.text == ""
    && |e.children| == |a.names| + |a.descriptions| + |a.defaultValues|
    && forall c :: c in e.children <==> c in LocaleChildren(a)
  }

  /**
   * One `foreach (locale, m.keys())` loop of the serialiser: appends one
   * `tag` child per entry of `m` to `root`, leaving everything else as it was.
   * The order in which the locales are visited is left open.
   */
  method AppendLocaleChildren(root: XmlDomElement, tag: string, m: map<string, string>)
    returns (r: XmlDomElement)
    ensures r.name == root.name && r.attributes == root.attributes && r.text == root.text
    ensures |r.children| == |root.children| + |m|
    ensures r.children[..|root.children|] == root.children
    ensures forall c :: c in r.children[|root.children|..] <==> c in LocaleNodes(tag, m, m.Keys)
  {
    r := root;
    var pending := m.Keys;
    ghost var done: set<string> := {};
    while pending != {}
      invariant pending !! done && pending + done == m.Keys
      invariant r.name == root.name && r.attributes == root.attributes && r.text == root.text
      invariant |r.children| == |root.children| + |done|
      invariant r.children[..|root.children|] == root.children
      invariant forall c :: c in r.children[|root.children|..] <==> c in LocaleNodes(tag, m, done)
      decreases pending
    {
      var locale :| locale in pending;
      var child := LocaleTextChild(tag, locale, m[locale]);
      assert r.children[|root.children|..] + [child] == (r.children + [child])[|root.children|..];
      r := r.(children := r.children + [child]);
      pending := pending - {locale};
      done := done + {locale};
    }
    assert done == m.Keys;
  }

  /**
   * `serializeToXmlDomElement`: fails exactly when the validity check fails,
   * and otherwise writes the attribute element for `a`.
   */
  method SerializeToXmlDomElement(a: Attribute) returns (r: Result<XmlDomElement, Error>)
    ensures r.Failure? <==> !CheckAttributesValidity(a)
    ensures r.Failure? ==> r.error == LogicError
    ensures r.Success? ==> IsSerializationOf(r.value, a)
  {
    if !CheckAttributesValidity(a) {
      return Failure(LogicError);
    }
    var root := XmlDomElement("attribute", map[], "", []);
    root := root.(attributes := root.attributes["key" := a.key]);
    root := root.(attributes := root.attributes["type" := TypeToString(a.attrType)]);
    var withNames := AppendLocaleChildren(root, "name", a.names);
    var withDescriptions := AppendLocaleChildren(withNames, "description", a.descriptions);
    var withDefaults := AppendLocaleChildren(withDescriptions, "default_value", a.defaultValues);
    ghost var n, d := |withNames.children|, |withDescriptions.children|;
    assert withDefaults.children
        == withNames.children + withDescriptions.children[n..] + withDefaults.children[d..];
    return Success(withDefaults);
  }
}
