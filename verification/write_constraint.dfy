/** The write constraint of a field: one of three mutually exclusive shapes,
    decoded from an XML element by trying each child in a fixed order. */
module WriteConstraints {
  import opened Base

  /** Payload of the `writeAsRead` child. */
  datatype WriteAsRead = WriteAsRead(value: bool)

  /** Payload of the `range` child: smallest and largest writable value. */
  datatype WriteRange = WriteRange(minimum: nat, maximum: nat)

  datatype WriteConstraint =
    | WriteAsReadConstraint(writeAsRead: WriteAsRead)
    | UseEnumeratedValues(useEnumeratedValues: bool)
    | RangeConstraint(range: WriteRange)

  /** An XML element seen through the decoder: for each of the three child
      names, the value that decoding that child yields, or `None` when the
      child is missing or malformed. */
  datatype Element = Element(
    description: string,
    writeAsRead: Option<WriteAsRead>,
    useEnumeratedValues: Option<bool>,
    range: Option<WriteRange>)

  datatype XmlError = UnknownElement(description: string)

  /** Try `writeAsRead`, then `useEnumeratedValues`, then `range`; fail with
      `unknownElement` when none of them decodes. */
  function Decode(e: Element): (r: Result<WriteConstraint, XmlError>)
    ensures e.writeAsRead.Some? ==> r == Success(WriteAsReadConstraint(e.writeAsRead.value))
    ensures r.Success? && r.value.UseEnumeratedValues? <==>
              e.writeAsRead.None? && e.useEnumeratedValues.Some?
    ensures r.Success? && r.value.UseEnumeratedValues? ==>
              r.value.useEnumeratedValues == e.useEnumeratedValues.value
    ensures r.Success? && r.value.RangeConstraint? <==>
              e.writeAsRead.None? && e.useEnumeratedValues.None? && e.range.Some?
    ensures r.Success? && r.value.RangeConstraint? ==> r.value.range == e.range.value
    ensures r.Failure? <==>
              e.writeAsRead.None? && e.useEnumeratedValues.None? && e.range.None?
    ensures r.Failure? ==> r.error == UnknownElement(e.description)
  {
    if e.writeAsRead.Some? then Success(WriteAsReadConstraint(e.writeAsRead.value))
    else if e.useEnumeratedValues.Some? then Success(UseEnumeratedValues(e.useEnumeratedValues.value))
    else if e.range.Some? then Success(RangeConstraint(e.range.value))
    else Failure(UnknownElement(e.description))
  }

  /** The element holding exactly the one child that describes `c`. */
  function Encode(c: WriteConstraint, description: string): (e: Element)
  {
    match c
    case WriteAsReadConstraint(w) => Element(description, Some(w), None, None)
    case UseEnumeratedValues(b) => Element(description, None, Some(b), None)
    case RangeConstraint(rg) => Element(description, None, None, Some(rg))
  }

  /** Decoding an encoded constraint gives it back. */
  lemma DecodeEncode(c: WriteConstraint, description: string)
    ensures Decode(Encode(c, description)) == Success(c)
  {
  }

  /** Only the first child present decides the result: two elements that
      agree on it decode alike, whatever later children they carry. */
  lemma DecodeDependsOnFirstChild(e1: Element, e2: Element)
    ensures e1.writeAsRead.Some? && e1.writeAsRead == e2.writeAsRead ==> Decode(e1) == Decode(e2)
    ensures e1.writeAsRead.None? && e2.writeAsRead.None?
            && e1.useEnumeratedValues.Some? && e1.useEnumeratedValues == e2.useEnumeratedValues
            ==> Decode(e1) == Decode(e2)
    ensures e1.writeAsRead.None? && e2.writeAsRead.None?
            && e1.useEnumeratedValues.None? && e2.useEnumeratedValues.None?
            && e1.range.Some? && e1.range == e2.range
            ==> Decode(e1) == Decode(e2)
  {
  }
}
