/** An attribute of an ezXML tag. */
module XmlAttr {
  datatype Attr = Attr(name: string, value: string)
}
