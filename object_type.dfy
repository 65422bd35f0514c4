/** The `object_type` enumeration of git's pack format and its `from_u8` conversion. */
module ObjectTypes {
  import opened Bytes

  /** One constructor per enumerator, with git's names and the discriminants below. */
  datatype ObjectType =
    | ObjBad        // -1
    | ObjNone       //  0
    | ObjCommit     //  1
    | ObjTree       //  2
    | ObjBlob       //  3
    | ObjTag        //  4
                    //  5 is reserved for future expansion
    | ObjOfsDelta   //  6
    | ObjRefDelta   //  7
    | ObjAny        //  8
    | ObjMax        //  9

  function Discriminant(t: ObjectType): int {
    match t
    case ObjBad => -1
    case ObjNone => 0
    case ObjCommit => 1
    case ObjTree => 2
    case ObjBlob => 3
    case ObjTag => 4
    case ObjOfsDelta => 6
    case ObjRefDelta => 7
    case ObjAny => 8
    case ObjMax => 9
  }

  /** The enumerator whose discriminant is n, if there is one. ObjBad (-1) is not the
      discriminant of any unsigned byte, and no enumerator has discriminant 5. */
  function FromU8(n: byte): (r: Option<ObjectType>)
    ensures r.Some? <==> n in {0, 1, 2, 3, 4, 6, 7, 8, 9}
    ensures r.Some? ==> Discriminant(r.value) == n
  {
    if n == 0 then Some(ObjNone)
    else if n == 1 then Some(ObjCommit)
    else if n == 2 then Some(ObjTree)
    else if n == 3 then Some(ObjBlob)
    else if n == 4 then Some(ObjTag)
    else if n == 6 then Some(ObjOfsDelta)
    else if n == 7 then Some(ObjRefDelta)
    else if n == 8 then Some(ObjAny)
    else if n == 9 then Some(ObjMax)
    else None
  }

  /** Every enumerator but ObjBad comes back from its own discriminant. */
  lemma FromU8Discriminant(t: ObjectType)
    requires t != ObjBad
    ensures 0 <= Discriminant(t) < 256
    ensures FromU8(Discriminant(t)) == Some(t)
  {
  }

  /** On a 3-bit tag the lookup fails only for 5, and maps the other seven values to
      ObjNone, ObjCommit, ObjTree, ObjBlob, ObjTag, ObjOfsDelta and ObjRefDelta. */
  lemma TagLookup(tag: byte)
    requires tag < 8
    ensures FromU8(tag).None? <==> tag == 5
    ensures FromU8(tag) == [Some(ObjNone), Some(ObjCommit), Some(ObjTree), Some(ObjBlob),
                            Some(ObjTag), None, Some(ObjOfsDelta), Some(ObjRefDelta)][tag]
  {
  }
}
