/**
 * Properties of `library::Attribute` that relate several of its operations:
 * the type codec round trip, and reading back what the serialiser writes.
 */
module AttributeProperties {
  import opened Wrappers
  import opened XmlDom
  import opened LibraryBaseElement
  import opened Library

  /** `stringToType(typeToString(t)) == t` for every type. */
  lemma TypeRoundTrip(t: AttributeType)
    ensures StringToType(TypeToString(t)) == Success(t)
  {
  }

  /** Distinct types have distinct names. */
  lemma TypeToStringInjective(t: AttributeType, u: AttributeType)
    ensures TypeToString(t) == TypeToString(u) ==> t == u
  {
  }

  /** A locale child made for `tag` carries that tag and its locale. */
  lemma LocaleNodesShape(tag: string, m: map<string, string>, locales: set<string>, c: XmlDomElement)
    requires c in LocaleNodes(tag, m, locales)
    ensures c.name == tag && LocaleOf(c) in locales && LocaleOf(c) in m
    ensures c == LocaleTextChild(tag, LocaleOf(c), m[LocaleOf(c)])
  {
    var locale :| locale in locales && locale in m && c == LocaleTextChild(tag, locale, m[locale]);
    assert LocaleOf(c) == locale;
  }

  /** Every locale of `m` whose child is present is read back. */
  lemma ReadBackCoversMap(cs: seq<XmlDomElement>, tag: string, m: map<string, string>)
    requires forall locale :: locale in m ==> LocaleTextChild(tag, locale, m[locale]) in cs
    ensures m.Keys <= ReadLocaleNodes(cs, tag).Keys
  {
    ReadLocaleNodesSpec(cs, tag);
    forall locale | locale in m
      ensures locale in TaggedLocales(cs, tag)
    {
      var c := LocaleTextChild(tag, locale, m[locale]);
      assert c in cs && c.name == tag && LocaleOf(c) == locale;
    }
  }

  /** When every `tag` child was written for `m`, every entry read back is an entry of `m`. */
  lemma ReadBackAgreesWithMap(cs: seq<XmlDomElement>, tag: string, m: map<string, string>)
    requires forall c :: c in cs && c.name == tag ==> c in LocaleNodes(tag, m, m.Keys)
    ensures forall locale :: locale in ReadLocaleNodes(cs, tag) ==>
              locale in m && ReadLocaleNodes(cs, tag)[locale] == m[locale]
  {
    var r := ReadLocaleNodes(cs, tag);
    ReadLocaleNodesSpec(cs, tag);
    forall locale | locale in r
      ensures locale in m && r[locale] == m[locale]
    {
      var i :| LastEntry(cs, tag, locale, i) && cs[i].text == r[locale];
      assert cs[i] in cs;
      LocaleNodesShape(tag, m, m.Keys, cs[i]);
    }
  }

  /**
   * Reading the `tag` children back gives `m` when they are exactly the locale
   * children written for `m`, in any order and possibly repeated.
   */
  lemma ReadBackLocaleNodes(cs: seq<XmlDomElement>, tag: string, m: map<string, string>)
    requires forall c :: c in cs && c.name == tag ==> c in LocaleNodes(tag, m, m.Keys)
    requires forall locale :: locale in m ==> LocaleTextChild(tag, locale, m[locale]) in cs
    ensures ReadLocaleNodes(cs, tag) == m
  {
    ReadBackCoversMap(cs, tag, m);
    ReadBackAgreesWithMap(cs, tag, m);
  }

  /** The children of a serialised attribute tagged `tag` are the ones written for `m`. */
  lemma SerializedTagChildren(e: XmlDomElement, a: Attribute, tag: string, m: map<string, string>)
    requires IsSerializationOf(e, a)
    requires (tag, m) in
               {("name", a.names), ("description", a.descriptions), ("default_value", a.defaultValues)}
    ensures ReadLocaleDomNodes(e, tag) == m
  {
    forall c | c in e.children && c.name == tag
      ensures c in LocaleNodes(tag, m, m.Keys)
    {
      assert c in LocaleChildren(a);
      if c in LocaleNodes("name", a.names, a.names.Keys) {
        LocaleNodesShape("name", a.names, a.names.Keys, c);
      } else if c in LocaleNodes("description", a.descriptions, a.descriptions.Keys) {
        LocaleNodesShape("description", a.descriptions, a.descriptions.Keys, c);
      } else {
        LocaleNodesShape("default_value", a.defaultValues, a.defaultValues.Keys, c);
      }
    }
    forall locale | locale in m
      ensures LocaleTextChild(tag, locale, m[locale]) in e.children
    {
      assert LocaleTextChild(tag, locale, m[locale]) in LocaleNodes(tag, m, m.Keys);
    }
    ReadBackLocaleNodes(e.children, tag, m);
  }

  /**
   * Round trip: constructing an attribute from the element the serialiser
   * wrote for a valid attribute gives back the same key, type and maps.
   */
  lemma ParseSerializedRoundTrip(a: Attribute, e: XmlDomElement)
    requires CheckAttributesValidity(a)
    requires IsSerializationOf(e, a)
    ensures FromXmlDomElement(e) == Success(a)
  {
    SerializedTagChildren(e, a, "name", a.names);
    SerializedTagChildren(e, a, "description", a.descriptions);
    SerializedTagChildren(e, a, "default_value", a.defaultValues);
    assert AttributeOrEmpty(e, "key") == a.key;
    assert AttributeOrEmpty(e, "type") == TypeToString(a.attrType);
    TypeRoundTrip(a.attrType);
  }

  /**
   * Serialising a constructed attribute reproduces the key and type strings
   * of the element it was read from, and reads back as the same attribute.
   */
  lemma ReserializeKeepsKeyAndType(e: XmlDomElement, a: Attribute, e': XmlDomElement)
    requires FromXmlDomElement(e) == Success(a)
    requires IsSerializationOf(e', a)
    ensures AttributeOrEmpty(e', "key") == AttributeOrEmpty(e, "key")
    ensures AttributeOrEmpty(e', "type") == AttributeOrEmpty(e, "type")
    ensures FromXmlDomElement(e') == FromXmlDomElement(e)
  {
    ParseSerializedRoundTrip(a, e');
  }

  /** The getters of a constructed attribute look up the maps read from its element. */
  lemma GettersOfParsedElement(e: XmlDomElement, locale: string, lookup: LocaleLookup)
    requires FromXmlDomElement(e).Success?
    ensures GetName(FromXmlDomElement(e).value, locale, lookup)
              == lookup(ReadLocaleDomNodes(e, "name"), locale)
    ensures GetDescription(FromXmlDomElement(e).value, locale, lookup)
              == lookup(ReadLocaleDomNodes(e, "description"), locale)
    ensures GetDefaultValue(FromXmlDomElement(e).value, locale, lookup)
              == lookup(ReadLocaleDomNodes(e, "default_value"), locale)
  {
  }

  /** Distinct locales give distinct children, so there are as many children as locales. */
  lemma {:induction false} LocaleNodesCount(tag: string, m: map<string, string>, locales: set<string>)
    requires locales <= m.Keys
    ensures |LocaleNodes(tag, m, locales)| == |locales|
    decreases locales
  {
    if locales == {} {
      assert LocaleNodes(tag, m, locales) == {};
    } else {
      var locale :| locale in locales;
      var rest := locales - {locale};
      var child := LocaleTextChild(tag, locale, m[locale]);
      LocaleNodesCount(tag, m, rest);
      assert LocaleNodes(tag, m, locales) == LocaleNodes(tag, m, rest) + {child};
      forall c | c in LocaleNodes(tag, m, rest)
        ensures c != child
      {
        LocaleNodesShape(tag, m, rest, c);
      }
    }
  }

  /** The children to emit for `a` number exactly the entries of its three maps. */
  lemma LocaleChildrenCount(a: Attribute)
    ensures |LocaleChildren(a)| == |a.names| + |a.descriptions| + |a.defaultValues|
  {
    var n := LocaleNodes("name", a.names, a.names.Keys);
    var d := LocaleNodes("description", a.descriptions, a.descriptions.Keys);
    var v := LocaleNodes("default_value", a.defaultValues, a.defaultValues.Keys);
    LocaleNodesCount("name", a.names, a.names.Keys);
    LocaleNodesCount("description", a.descriptions, a.descriptions.Keys);
    LocaleNodesCount("default_value", a.defaultValues, a.defaultValues.Keys);
    forall c | c in n ensures c !in d && c !in v {
      LocaleNodesShape("name", a.names, a.names.Keys, c);
    }
    forall c | c in d ensures c !in v {
      LocaleNodesShape("description", a.descriptions, a.descriptions.Keys, c);
    }
    assert |n + d| == |n| + |d| by { assert n !! d; }
    assert |n + d + v| == |n + d| + |v| by { assert (n + d) !! v; }
  }

  /** The elements of `s`. */
  ghost function Elements<T>(s: seq<T>): set<T>
  {
    set x | x in s
  }

  /** A sequence has at most as many distinct elements as positions. */
  lemma {:induction false} ElementsBound<T>(s: seq<T>)
    ensures |Elements(s)| <= |s|
    decreases |s|
  {
    if s != [] {
      ElementsBound(s[1..]);
      assert Elements(s) == Elements(s[1..]) + {s[0]};
    }
  }

  /** A sequence with as many distinct elements as positions repeats none. */
  lemma {:induction false} NoRepeatsWhenCountsAgree<T>(s: seq<T>)
    requires |Elements(s)| == |s|
    ensures forall i, j :: 0 <= i < j < |s| ==> s[i] != s[j]
    decreases |s|
  {
    if s != [] {
      var tail := s[1..];
      assert Elements(s) == Elements(tail) + {s[0]};
      ElementsBound(tail);
      assert s[0] !in tail;
      NoRepeatsWhenCountsAgree(tail);
      forall i, j | 0 <= i < j < |s| ensures s[i] != s[j] {
        if i == 0 {
          assert s[j] == tail[j - 1];
        } else {
          assert s[i] == tail[i - 1] && s[j] == tail[j - 1];
        }
      }
    }
  }

  /** The serialiser emits each locale child once: no two children are equal. */
  lemma SerializedChildrenDistinct(e: XmlDomElement, a: Attribute)
    requires IsSerializationOf(e, a)
    ensures forall i, j :: 0 <= i < j < |e.children| ==> e.children[i] != e.children[j]
  {
    LocaleChildrenCount(a);
    assert Elements(e.children) == LocaleChildren(a);
    NoRepeatsWhenCountsAgree(e.children);
  }
}
