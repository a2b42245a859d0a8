/** The character map from end to end: the generator (libx52util/x52_char_map_gen.py) and the lookup over
    its tables (libx52util/x52_char_map_lookup.c), one after the other. */
module CharMap {
  import opened Prelude
  import opened Utf8
  import opened Trie
  import opened CharTables
  import opened CharMapGen
  import opened CharLookup

  /** The text of a NUL-terminated input. */
  lemma TextOf(input: seq<byte>, cs: seq<Scalar>)
    requires Spells(input, cs)
    ensures |input| > 0 && input[|input| - 1] == 0 && input[..|input| - 1] == EncodeAll(cs)
    ensures forall i :: 0 <= i < |input| - 1 ==> input[i] != 0
  {
    NoZeroByte(cs);
  }

  /** For every list of mappings and every text: the call answers as specified. On a text whose characters
      are all mapped that is decode-then-map, cut to the buffer; on any text it is the documented answer
      exactly under the condition of DocumentedIff. */
  method CompileAndConvert(ms: seq<Mapping>, input: array<byte>, output: array<byte>, len: nat, ghost cs: seq<Scalar>)
    returns (status: Status, written: nat)
    requires Spells(input[..], cs) && len <= output.Length && output != input
    modifies output
    ensures len == 0 ==> status == BadArgument && output[..] == old(output[..])
    ensures len > 0 ==>
              && status != BadArgument && written <= len
              && Answer(output[..written], status == TooBig) == Actual(ms, cs, len)
              && output[written..] == old(output[written..])
    ensures len > 0 && (forall k :: 0 <= k < |cs| ==> Lookup(ms, cs[k]).Some?) ==>
              && written == Min(|cs|, len)
              && output[..written] == MapAll(ms, cs)[..written]
              && status == if |cs| >= len then TooBig else Ok
    ensures len > 0 ==>
              (Answer(output[..written], status == TooBig) == Documented(ms, cs, len) <==>
                 if LeadingMapped(ms, cs) < len then KnownFirst(ms, cs) else AllMapped(ms, cs) > len)
  {
    hide Spells, Converted, Compiled, ConvertBytes, Documented, KnownFirst, LeadingMapped, AllMapped, MapAll, Lookup;
    var image := Generator(ms);
    TextOf(input[..], cs);
    ImageOutput(ms, image, cs);
    ghost var end := input.Length - 1;
    assert input[..end] == input[..][..end];
    status, written := Convert(image, input, output, len, end);
    if len > 0 {
      DocumentedIff(ms, cs, len);
      if forall k :: 0 <= k < |cs| ==> Lookup(ms, cs[k]).Some? {
        ConvertedIsMapAll(ms, cs);
      }
    }
  }

  lemma ImageOutput(ms: seq<Mapping>, image: Image, cs: seq<Scalar>)
    requires image == Generate(Built(ms))
    ensures ConvertBytes(image, EncodeAll(cs)) == Converted(Compiled(ms), cs)
  {
    hide Converted, ConvertBytes, Generate, Built, EncodeAll;
    CompiledIsGood(ms);
    TextOutput(image, cs);
  }
}
