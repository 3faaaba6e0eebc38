/**
 * The encoding resolver (`decodeContent`): try a fixed list of codecs in
 * order, keep the first strict decode that succeeds, and otherwise fall back
 * to a lossy decode under the codec whose strict decode failed furthest into
 * the input.
 *
 * The codecs themselves are library code; they enter the model as two
 * functions: `strict(codec, bytes)` gives the decoded text or the offset of
 * the first byte it rejects, and `lossy(codec, bytes)` gives the text decoded
 * with replacement characters.
 */
module Encoding {

  newtype byte = x: int | 0 <= x < 256

  datatype Codec = Utf8 | ShiftJis | EucJp | Utf16

  /** The priority list: `utf-8`, `shift_jis`, `euc-jp`, `utf-16`. */
  const Encodings: seq<Codec> := [Utf8, ShiftJis, EucJp, Utf16]

  /** Outcome of a strict decode: the text, or the start offset of the failure (`e[2]`). */
  datatype Strict = Decoded(text: string) | Failed(start: nat)

  type StrictDecoder = (Codec, seq<byte>) -> Strict
  type LossyDecoder = (Codec, seq<byte>) -> string

  /** Every codec is in the priority list. */
  lemma AllCodecsListed(c: Codec)
    ensures c in Encodings
  {
    match c
    case Utf8 => assert Encodings[0] == c;
    case ShiftJis => assert Encodings[1] == c;
    case EucJp => assert Encodings[2] == c;
    case Utf16 => assert Encodings[3] == c;
  }

  /**
   * The index, from `from` on, of the first codec in the priority list whose
   * strict decode succeeds, or `|Encodings|` when none does.
   */
  function FirstDecodableFrom(content: seq<byte>, strict: StrictDecoder, from: nat): (k: nat)
    requires from <= |Encodings|
    ensures from <= k <= |Encodings|
    ensures k < |Encodings| ==> strict(Encodings[k], content).Decoded?
    ensures forall j :: from <= j < k ==> strict(Encodings[j], content).Failed?
    decreases |Encodings| - from
  {
    if from == |Encodings| then from
    else if strict(Encodings[from], content).Decoded? then from
    else FirstDecodableFrom(content, strict, from + 1)
  }

  function FirstDecodable(content: seq<byte>, strict: StrictDecoder): nat
  {
    FirstDecodableFrom(content, strict, 0)
  }

  /**
   * The index in `keys` of the element that `sorted(keys, key=errors.get,
   * reverse=True)[0]` returns: a largest value, and among the largest the
   * first in `keys` (Python's sort is stable, also when reversed).
   */
  function FirstMaximal(keys: seq<Codec>, errors: map<Codec, nat>): (i: nat)
    requires |keys| > 0
    requires forall j :: 0 <= j < |keys| ==> keys[j] in errors
    ensures i < |keys|
    ensures forall j :: 0 <= j < |keys| ==> errors[keys[j]] <= errors[keys[i]]
    ensures forall j :: 0 <= j < i ==> errors[keys[j]] < errors[keys[i]]
  {
    if |keys| == 1 then 0
    else
      var r := FirstMaximal(keys[1..], errors);
      if errors[keys[1 + r]] <= errors[keys[0]] then 0 else 1 + r
  }

  /** The `errors` dictionary: the failure offset of each codec whose strict decode fails. */
  function ErrorOffsets(content: seq<byte>, strict: StrictDecoder): map<Codec, nat> {
    map c | c in Encodings && strict(c, content).Failed? :: strict(c, content).start
  }

  /**
   * An iteration order of the `errors` dictionary once it holds all four
   * codecs. Python leaves the order to the hash table, so it is a parameter.
   */
  predicate IsIterationOrder(order: seq<Codec>) {
    |order| == |Encodings| && forall c: Codec :: c in order
  }

  /** What `decodeContent` returns: the decoded text and the codec used. */
  function Resolve(content: seq<byte>, strict: StrictDecoder, lossy: LossyDecoder, order: seq<Codec>): (string, Codec)
    requires IsIterationOrder(order)
  {
    var k := FirstDecodable(content, strict);
    if k < |Encodings| then
      (strict(Encodings[k], content).text, Encodings[k])
    else
      var errors := ErrorOffsets(content, strict);
      assert forall j :: 0 <= j < |order| ==> order[j] in errors by {
        forall j | 0 <= j < |order| ensures order[j] in errors {
          AllCodecsListed(order[j]);
        }
      }
      var chosen := order[FirstMaximal(order, errors)];
      (lossy(chosen, content), chosen)
  }

  /** `decodeContent`: the loop over the priority list with an early return, then the fallback. */
  method DecodeContent(content: seq<byte>, strict: StrictDecoder, lossy: LossyDecoder, order: seq<Codec>)
    returns (text: string, encoding: Codec)
    requires IsIterationOrder(order)
    ensures (text, encoding) == Resolve(content, strict, lossy, order)
  {
    var errors: map<Codec, nat> := map[];
    for i := 0 to |Encodings|
      invariant forall j :: 0 <= j < i ==> strict(Encodings[j], content).Failed?
      invariant errors == map c | c in Encodings[..i] :: strict(c, content).start
    {
      match strict(Encodings[i], content)
      case Decoded(t) =>
        assert FirstDecodable(content, strict) == i by {
          FirstDecodableIsFirst(content, strict, i);
        }
        return t, Encodings[i];
      case Failed(e) =>
        errors := errors[Encodings[i] := e];
    }
    assert FirstDecodable(content, strict) == |Encodings| by {
      FirstDecodableIsFirst(content, strict, |Encodings|);
    }
    assert Encodings[..|Encodings|] == Encodings;
    assert errors == ErrorOffsets(content, strict);
    assert forall j :: 0 <= j < |order| ==> order[j] in errors by {
      forall j | 0 <= j < |order| ensures order[j] in errors {
        AllCodecsListed(order[j]);
      }
    }
    encoding := order[FirstMaximal(order, errors)];
    text := lossy(encoding, content);
  }

  /** The first success is unique: any `k` with all earlier codecs failing and codec `k` succeeding is it. */
  lemma FirstDecodableIsFirst(content: seq<byte>, strict: StrictDecoder, k: nat)
    requires k <= |Encodings|
    requires k < |Encodings| ==> strict(Encodings[k], content).Decoded?
    requires forall j :: 0 <= j < k ==> strict(Encodings[j], content).Failed?
    ensures FirstDecodable(content, strict) == k
  {
  }

  /**
   * Strict success: the result is the strict decode under the first codec in
   * priority order that accepts the bytes, labelled with that codec.
   */
  lemma ResolveFirstSuccess(content: seq<byte>, strict: StrictDecoder, lossy: LossyDecoder, order: seq<Codec>, k: nat)
    requires IsIterationOrder(order)
    requires k < |Encodings| && strict(Encodings[k], content).Decoded?
    requires forall j :: 0 <= j < k ==> strict(Encodings[j], content).Failed?
    ensures Resolve(content, strict, lossy, order) == (strict(Encodings[k], content).text, Encodings[k])
  {
    FirstDecodableIsFirst(content, strict, k);
  }

  /**
   * Fallback: when every strict decode fails, the chosen has a largest failure
   * offset of all four codecs, is the first such in the dictionary's
   * iteration order, and the text is the lossy decode under it.
   */
  lemma ResolveFallback(content: seq<byte>, strict: StrictDecoder, lossy: LossyDecoder, order: seq<Codec>)
    requires IsIterationOrder(order)
    requires forall c :: strict(c, content).Failed?
    ensures var (text, chosen) := Resolve(content, strict, lossy, order);
      && text == lossy(chosen, content)
      && (forall c :: strict(c, content).start <= strict(chosen, content).start)
      && (exists i :: 0 <= i < |order| && order[i] == chosen
            && forall j :: 0 <= j < i ==> strict(order[j], content).start < strict(chosen, content).start)
  {
    FirstDecodableIsFirst(content, strict, |Encodings|);
    var errors := ErrorOffsets(content, strict);
    forall c ensures c in errors && errors[c] == strict(c, content).start {
      AllCodecsListed(c);
    }
    var i := FirstMaximal(order, errors);
    var chosen := order[i];
    forall c ensures strict(c, content).start <= strict(chosen, content).start {
      assert c in order;
      var j :| 0 <= j < |order| && order[j] == c;
    }
  }

  /**
   * Later codecs are never tried: two decoders that agree on the codecs up to
   * and including the first one that succeeds give the same result.
   */
  lemma ResolveIgnoresLater(content: seq<byte>, strict1: StrictDecoder, strict2: StrictDecoder,
                            lossy: LossyDecoder, order: seq<Codec>, k: nat)
    requires IsIterationOrder(order)
    requires k < |Encodings| && strict1(Encodings[k], content).Decoded?
    requires forall j :: 0 <= j <= k ==> strict1(Encodings[j], content) == strict2(Encodings[j], content)
    ensures Resolve(content, strict1, lossy, order) == Resolve(content, strict2, lossy, order)
  {
    var k1 := FirstDecodable(content, strict1);
    assert k1 <= k;
    FirstDecodableIsFirst(content, strict2, k1);
  }
}
