/**
 * The one-time pad: every UTF-16 code unit of the text is XOR-ed with the pad code unit
 * at the same position, the pad repeating when it is shorter (the Vigenere variant).
 * Decryption is the same operation. Texts are sequences of 16-bit code units, since an
 * XOR of two characters need not be a character on its own.
 */
module OneTimePad {
  import opened Wrappers

  /** A UTF-16 code unit, C#'s char. */
  type CodeUnit = bv16

  type Text = seq<CodeUnit>

  /** The exceptions the source throws: ArgumentException for a short pad, DivideByZeroException for an empty one. */
  datatype Error = PadTooShort | DivideByZero

  /** text XOR-ed position by position with the pad repeated to its length. */
  function Masked(pad: Text, text: Text): (r: Text)
    requires |pad| > 0 || |text| == 0
    ensures |r| == |text|
  {
    seq(|text|, i requires 0 <= i < |text| => pad[i % |pad|] ^ text[i])
  }

  /** Masking twice with the same pad restores the text: the cipher is its own inverse. */
  lemma RoundTrip(pad: Text, text: Text)
    requires |pad| > 0 || |text| == 0
    ensures Masked(pad, Masked(pad, text)) == text
  {
    var c := Masked(pad, text);
    forall i | 0 <= i < |text|
      ensures Masked(pad, c)[i] == text[i]
    {
      XorTwice(pad[i % |pad|], text[i]);
    }
  }

  /** XOR with the same code unit twice is the identity. */
  lemma XorTwice(k: CodeUnit, x: CodeUnit)
    ensures k ^ (k ^ x) == x
  {
  }

  /** The cipher with its pad-length policy, fixed at construction (default: the pad must be at least as long as the text). */
  class Pad {
    const requireEqualKeyLength: bool

    constructor(requireEqualKeyLength: bool)
      ensures this.requireEqualKeyLength == requireEqualKeyLength
    {
      this.requireEqualKeyLength := requireEqualKeyLength;
    }

    /** The pad unchanged, unless the policy demands a pad as long as the text and it is shorter. */
    function CheckPadLength(pad: Text, text: Text): (r: Result<Text, Error>)
      ensures r.Success? <==> !requireEqualKeyLength || |pad| >= |text|
      ensures r.Success? ==> r.value == pad
      ensures r.Failure? ==> r.error == PadTooShort
    {
      if !requireEqualKeyLength then Success(pad)
      else if |pad| < |text| then Failure(PadTooShort)
      else Success(pad)
    }

    /**
     * Encrypt: fails with PadTooShort when the policy rejects the pad, with DivideByZero
     * for an empty pad and a non-empty text, and otherwise returns the masked text.
     */
    method Encrypt(key: Text, plainText: Text) returns (r: Result<Text, Error>)
      ensures r.Failure? <==> (requireEqualKeyLength && |key| < |plainText|) || (|key| == 0 && |plainText| > 0)
      ensures r.Failure? ==> r.error == (if requireEqualKeyLength && |key| < |plainText| then PadTooShort else DivideByZero)
      ensures r.Success? ==> r.value == Masked(key, plainText)
    {
      r := Apply(key, plainText);
    }

    /** Decrypt: the same checks and the same masking as Encrypt. */
    method Decrypt(key: Text, cipherText: Text) returns (r: Result<Text, Error>)
      ensures r.Failure? <==> (requireEqualKeyLength && |key| < |cipherText|) || (|key| == 0 && |cipherText| > 0)
      ensures r.Failure? ==> r.error == (if requireEqualKeyLength && |key| < |cipherText| then PadTooShort else DivideByZero)
      ensures r.Success? ==> r.value == Masked(key, cipherText)
    {
      r := Apply(key, cipherText);
    }

    /** The loop both directions share: XOR each code unit with pad[i % |pad|]. */
    method Apply(key: Text, text: Text) returns (r: Result<Text, Error>)
      ensures r.Failure? <==> (requireEqualKeyLength && |key| < |text|) || (|key| == 0 && |text| > 0)
      ensures r.Failure? ==> r.error == (if requireEqualKeyLength && |key| < |text| then PadTooShort else DivideByZero)
      ensures r.Success? ==> r.value == Masked(key, text)
    {
      var checked := CheckPadLength(key, text);
      if checked.Failure? {
        return Failure(checked.error);
      }
      var pad := checked.value;
      var out: Text := [];
      for i := 0 to |text|
        invariant |pad| > 0 || i == 0
        invariant |out| == i && forall k :: 0 <= k < i ==> out[k] == pad[k % |pad|] ^ text[k]
      {
        if |pad| == 0 {
          return Failure(DivideByZero);
        }
        out := out + [pad[i % |pad|] ^ text[i]];
      }
      return Success(out);
    }
  }
}
