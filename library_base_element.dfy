/**
 * The two helpers of `LibraryBaseElement` that an attribute delegates to.
 * Their definitions live outside the attribute's source: reading the locale
 * nodes is modelled as collecting, in document order, the text of every child
 * with the given tag under its "locale" attribute (a later entry for the same
 * locale replaces an earlier one, as a map insertion does); looking a string
 * up in a locale map is left as a parameter.
 */
module LibraryBaseElement {
  import opened XmlDom

  /** The stand-in for `localeStringFromList(list, locale)`. */
  type LocaleLookup = (map<string, string>, string) -> string

  /** The locale a child node is tagged with. */
  function LocaleOf(c: XmlDomElement): string
  {
    AttributeOrEmpty(c, "locale")
  }

  /** The locales of all children of `cs` tagged `tag`. */
  ghost function TaggedLocales(cs: seq<XmlDomElement>, tag: string): set<string>
  {
    set c | c in cs && c.name == tag :: LocaleOf(c)
  }

  /** `cs[i]` is the last child tagged `tag` whose locale is `locale`. */
  ghost predicate LastEntry(cs: seq<XmlDomElement>, tag: string, locale: string, i: int)
  {
    && 0 <= i < |cs|
    && cs[i].name == tag
    && LocaleOf(cs[i]) == locale
    && forall j :: i < j < |cs| ==> !(cs[j].name == tag && LocaleOf(cs[j]) == locale)
  }

  /** Reading one child: it is entered under its locale when it carries the tag. */
  function EnterLocaleNode(m: map<string, string>, c: XmlDomElement, tag: string): map<string, string>
  {
    if c.name == tag then m[LocaleOf(c) := c.text] else m
  }

  /** The locale map read from the children `cs`, one child after another in document order. */
  function ReadLocaleNodes(cs: seq<XmlDomElement>, tag: string): map<string, string>
    decreases |cs|
  {
    if cs == [] then map[]
    else EnterLocaleNode(ReadLocaleNodes(cs[..|cs| - 1], tag), cs[|cs| - 1], tag)
  }

  /**
   * The keys of the map read from `cs` are the locales of the children tagged
   * `tag`, and each maps to the text of the last such child.
   */
  lemma {:induction false} ReadLocaleNodesSpec(cs: seq<XmlDomElement>, tag: string)
    ensures ReadLocaleNodes(cs, tag).Keys == TaggedLocales(cs, tag)
    ensures forall locale :: locale in ReadLocaleNodes(cs, tag) ==>
              exists i :: LastEntry(cs, tag, locale, i) && cs[i].text == ReadLocaleNodes(cs, tag)[locale]
    decreases |cs|
  {
    if cs != [] {
      var init, last := cs[..|cs| - 1], cs[|cs| - 1];
      ReadLocaleNodesSpec(init, tag);
      assert cs == init + [last];
      ExtendLastEntries(init, last, tag, ReadLocaleNodes(init, tag));
    }
  }

  /** Appending `last` to `init` keeps the last entry of every other locale. */
  lemma ExtendLastEntries(init: seq<XmlDomElement>, last: XmlDomElement, tag: string, m: map<string, string>)
    requires m.Keys == TaggedLocales(init, tag)
    requires forall locale :: locale in m ==>
               exists i :: LastEntry(init, tag, locale, i) && init[i].text == m[locale]
    ensures TaggedLocales(init + [last], tag)
              == TaggedLocales(init, tag) + (if last.name == tag then {LocaleOf(last)} else {})
    ensures forall locale :: locale in m && !(last.name == tag && LocaleOf(last) == locale) ==>
              exists i :: LastEntry(init + [last], tag, locale, i) && (init + [last])[i].text == m[locale]
  {
    var cs := init + [last];
    forall locale | locale in m && !(last.name == tag && LocaleOf(last) == locale)
      ensures exists i :: LastEntry(cs, tag, locale, i) && cs[i].text == m[locale]
    {
      var i :| LastEntry(init, tag, locale, i) && init[i].text == m[locale];
      assert LastEntry(cs, tag, locale, i);
    }
  }

  /** `readLocaleDomNodes(parent, tag, list)` on an initially empty list. */
  function ReadLocaleDomNodes(parent: XmlDomElement, tag: string): map<string, string>
  {
    ReadLocaleNodes(parent.children, tag)
  }
}
