# library::Attribute in Dafny

A model of `library::Attribute` from the component library of the EDA4U
(LibrePCB) electronic design application. An attribute is a typed, localizable
key/value pair attached to a library component: a key, one of five value
types (string, length, resistance, capacitance, inductance), and three maps
from locale tags such as `en_US` to a display name, a description and a
default value. It is read from and written to an XML element:

```
<attribute key="R1" type="resistance">
  <name locale="en_US">Resistance</name>
  <description locale="en_US">Main resistance value</description>
  <default_value locale="en_US">10k</default_value>
</attribute>
```

The attribute never changes after construction, so it is a `datatype`. The
constructor, which can throw, is the function `FromXmlDomElement` returning a
`Result`. The serialiser builds its element step by step with three `foreach`
loops, so it is a method. Each loop is one call of `AppendLocaleChildren`,
a `while` loop over the locales still to write. Its result is specified by the
ghost predicate `IsSerializationOf`, and the round trip is a lemma about that
predicate.

Files:

- `wrappers.dfy`: `Option` and `Result`.
- `xml_dom.dfy`: the XML element as a tree datatype, and `getAttribute(name, true)`.
- `library_base_element.dfy`: reading the locale children of an element into a map.
- `attribute.dfy`: the attribute itself, its type codec, its validity check, its constructor, its getters and its serialiser.
- `attribute_properties.dfy`: the codec round trip, the serialise-then-parse round trip, and the count and distinctness of the written children.
- `attribute_examples.dfy`: concrete elements and what construction gives for them.

Errors are the datatype `Library.Error`:

- `InvalidType(s)` is the runtime error of `stringToType`. It carries the offending string.
- `LogicError` is the error thrown when the validity check fails.
- `MissingAttribute(name)` is the parse error of `getAttribute(name, true)` for an absent or empty XML attribute.

The file and line payload of the exceptions is not modelled.

An empty `key` is refused by `getAttribute("key", true)` before the validity
check runs, so construction fails with `MissingAttribute("key")` rather than
`LogicError`. This follows the code at src/library/attribute.cpp:38, and it
assumes that the second argument of `getAttribute` means "fail if empty". The
validity check's non-empty-key test still matters when serialising an
attribute that was built some other way.

## Model

| member | source | states |
|---|---|---|
| `XmlDom.GetRequiredAttribute` | src/library/attribute.cpp:38-39 | Reading a required XML attribute succeeds exactly when it is present and non-empty, and then gives its value. |
| `LibraryBaseElement.ReadLocaleNodesSpec` | src/library/attribute.cpp:42-44 | The map read for a tag has as keys exactly the locales of the children with that tag. Each locale maps to the text of the last such child. |
| `Library.StringToType` | src/library/attribute.cpp:109-121 | Succeeds exactly on the five type names. Any other string fails with `InvalidType` carrying that string. On success, `TypeToString` of the result gives back the input. |
| `Library.TypeToString` | src/library/attribute.cpp:123-137 | Total over the five types, and the result is always one of the five type names. |
| `Library.CheckAttributesValidity` | src/library/attribute.cpp:96-103 | True iff all four hold: the key is non-empty; an `en_US` name exists and is non-empty (an absent name counts as empty); the descriptions have an `en_US` entry; the default values have an `en_US` entry. The last two may be empty. |
| `Library.FromXmlDomElement` | src/library/attribute.cpp:35-47 | Succeeds iff the key is non-empty, the type is one of the five names, and the maps read have a non-empty `en_US` name plus `en_US` description and default-value entries. A result always passes the validity check. Its fields are the key, the decoded type and the three maps read from the children. Each failure gives the error of the first step that fails. |
| `Library.AppendLocaleChildren` | src/library/attribute.cpp:83-88 | One `foreach` loop: the earlier children are kept and one child per map entry is appended. Each child has the tag, a `locale` attribute equal to the entry's locale, and the entry's text. Nothing else changes. |
| `Library.SerializeToXmlDomElement` | src/library/attribute.cpp:76-90 | Fails with `LogicError` iff the validity check fails. Otherwise gives an `attribute` element with exactly the attributes `key` and `type`. It has exactly one child per entry of the three maps, in some order, and no other child. |
| `AttributeProperties.TypeRoundTrip` | src/library/attribute.cpp:109-131 | `StringToType(TypeToString(t))` gives back `t` for every type. |
| `AttributeProperties.TypeToStringInjective` | src/library/attribute.cpp:123-131 | Distinct types have distinct names. |
| `AttributeProperties.ReadBackLocaleNodes` | src/library/attribute.cpp:42-44 | If the children with a tag are exactly the locale children written for a map, in any order and possibly repeated, reading that tag gives back the map. |
| `AttributeProperties.SerializedTagChildren` | src/library/attribute.cpp:83-88 | In a serialised attribute, reading the `name`, `description` or `default_value` children gives back the map they were written from. |
| `AttributeProperties.ParseSerializedRoundTrip` | src/library/attribute.cpp:38-88 | Constructing from the element written for a valid attribute gives back the same attribute: same key, same type and same three maps. |
| `AttributeProperties.ReserializeKeepsKeyAndType` | src/library/attribute.cpp:38-82 | Serialising an attribute constructed from an element reproduces that element's `key` and `type` strings. The result constructs to the same attribute. |
| `AttributeProperties.GettersOfParsedElement` | src/library/attribute.cpp:57-70 | `getName`, `getDescription` and `getDefaultValue` of a constructed attribute pass the locale lookup the map read from the `name`, `description` or `default_value` children. |
| `AttributeProperties.LocaleNodesCount` | src/library/attribute.cpp:83-88 | Distinct locales give distinct children, so one map gives as many children as it has entries. |
| `AttributeProperties.LocaleChildrenCount` | src/library/attribute.cpp:83-88 | The children to write number exactly the entries of the three maps. |
| `AttributeProperties.SerializedChildrenDistinct` | src/library/attribute.cpp:83-88 | No two children of a serialised attribute are equal. |
| `AttributeExamples.ResistanceAttributeIsRead` | src/library/attribute.cpp:35-47 | A resistance attribute with English name, description and default value is read with exactly those fields. |
| `AttributeExamples.EmptyDescriptionIsAccepted` | src/library/attribute.cpp:100-101 | An `en_US` description that is present but empty is accepted. |
| `AttributeExamples.EmptyNameIsRejected` | src/library/attribute.cpp:99 | An empty `en_US` name fails with `LogicError`. |
| `AttributeExamples.MissingEnglishNameIsRejected` | src/library/attribute.cpp:99 | An element with only a German name fails with `LogicError`. |
| `AttributeExamples.UnknownTypeIsRejected` | src/library/attribute.cpp:116-119 | Type `bogus` fails with `InvalidType("bogus")`. |
| `AttributeExamples.EmptyKeyIsRejected` | src/library/attribute.cpp:38 | An empty key fails with `MissingAttribute("key")`. |

## Left out

- `XmlDomElement` is not part of this model. The model treats it only as a tree of tag, attributes, text and children. `getAttribute(name, true)` is assumed to fail exactly on an absent or empty attribute. No file reading or writing is modelled.
- `LibraryBaseElement::readLocaleDomNodes` is not part of this model. It is modelled as collecting the `locale` attribute and text of every child with the tag, with a later entry replacing an earlier one. Errors it may raise (a missing locale, a repeated locale) are not modelled.
- `LibraryBaseElement::localeStringFromList` is not part of this model. The getters take it as a function parameter. No locale fallback chain is stated for them, because the attribute only delegates.
- The order of the serialised children is left open: the loop visits the locales in an unspecified order. Whether the maps are sorted or hashed is decided in a header outside this model, so children are compared as sets with a count.
- The `Q_ASSERT` and `qCritical` default branch of `typeToString` is not modelled: no value outside the five types exists in a closed datatype.
- `tr()` translation of the error message, and the file and line carried by exceptions, are not modelled.
- The programmatic construction and destruction of an attribute are not modelled. They are not in the core source.
