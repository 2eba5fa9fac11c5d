/** FileType: a file format, with its extension, its description and the
    signatures that identify it. */
module FileTypes {
  import opened Common
  import opened MagicNumbers

  /** The value of a FileType object: what the catalog holds and the matcher
      reads. */
  datatype Descriptor = Descriptor(extension: Option<string>, description: Option<string>, magicNumbers: Option<seq<Pattern>>)
  {
    /** `hasMagicNumbers`: a non-null, non-empty list of signatures. */
    predicate HasMagicNumbers() {
      magicNumbers.Some? && |magicNumbers.value| > 0
    }
  }

  /** The values of a list of MagicNumber objects, in order. */
  function PatternsOf(ms: seq<MagicNumber>): (ps: seq<Pattern>)
    reads set m | m in ms
    ensures |ps| == |ms|
    ensures forall i :: 0 <= i < |ms| ==> ps[i] == ms[i].Value()
  {
    if |ms| == 0 then [] else [ms[0].Value()] + PatternsOf(ms[1..])
  }

  class FileType {
    var extension: Option<string>
    var description: Option<string>
    var magicNumbers: Option<seq<MagicNumber>>

    /** The no-argument constructor: every field null. */
    constructor Default()
      ensures extension == None && description == None && magicNumbers == None
    {
      extension, description, magicNumbers := None, None, None;
    }

    /** Stores the three values unchanged. */
    constructor (extension: Option<string>, description: Option<string>, magicNumbers: Option<seq<MagicNumber>>)
      ensures this.extension == extension && this.description == description && this.magicNumbers == magicNumbers
    {
      this.extension, this.description, this.magicNumbers := extension, description, magicNumbers;
    }

    /** The MagicNumber objects the list refers to. */
    function Signatures(): set<MagicNumber>
      reads this
    {
      if magicNumbers.Some? then set m | m in magicNumbers.value else {}
    }

    function Value(): (d: Descriptor)
      reads this, Signatures()
      ensures d.extension == extension && d.description == description
      ensures d.magicNumbers.Some? <==> magicNumbers.Some?
      ensures magicNumbers.Some? ==> d.magicNumbers.value == PatternsOf(magicNumbers.value)
    {
      Descriptor(extension, description, if magicNumbers.Some? then Some(PatternsOf(magicNumbers.value)) else None)
    }

    method SetExtension(extension: Option<string>)
      modifies this
      ensures this.extension == extension && description == old(description) && magicNumbers == old(magicNumbers)
    {
      this.extension := extension;
    }

    method SetDescription(description: Option<string>)
      modifies this
      ensures this.description == description && extension == old(extension) && magicNumbers == old(magicNumbers)
    {
      this.description := description;
    }

    method SetMagicNumbers(magicNumbers: Option<seq<MagicNumber>>)
      modifies this
      ensures this.magicNumbers == magicNumbers && extension == old(extension) && description == old(description)
    {
      this.magicNumbers := magicNumbers;
    }

    /** `hasMagicNumbers`: false for a null or empty list, true otherwise; the
        same answer as on the object's value. */
    predicate HasMagicNumbers()
      reads this
      ensures HasMagicNumbers() <==> magicNumbers.Some? && magicNumbers.value != []
      ensures HasMagicNumbers() == Value().HasMagicNumbers()
    {
      magicNumbers.Some? && |magicNumbers.value| > 0
    }

    /** The signature count `toString` reports: 0 for a null list. */
    function MagicNumbersCount(): (n: nat)
      reads this
      ensures magicNumbers.None? ==> n == 0
      ensures magicNumbers.Some? ==> n == |magicNumbers.value|
      ensures n > 0 <==> HasMagicNumbers()
    {
      if magicNumbers.Some? then |magicNumbers.value| else 0
    }
  }
}
