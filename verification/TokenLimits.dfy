/** Which continuation tokens there are. */
module TokenLimits {
  import opened Common
  import opened Arith
  import opened Decimals
  import opened PagingTokens
  import B64 = Base64Url
  import ScaledFractions

  const HEX := "0123456789abcdef"

  lemma HexDigits(c: char)
    ensures '0' <= c <= '9' || 'a' <= c <= 'f' <==> c in HEX
  {
    if '0' <= c <= '9' {
      assert HEX[c as int - 48] == c by { HexAt(c as int - 48); }
    }
    if 'a' <= c <= 'f' {
      assert HEX[c as int - 87] == c by { HexAt(c as int - 87); }
    }
  }

  lemma HexAt(k: nat)
    requires k < 16
    ensures HEX[k] as int == if k < 10 then 48 + k else 87 + k
  {
  }

  /** An anchor fits into a token: integers of at most 128 digits, texts and bytes of at most 4096, and floats,
      datetimes and dates by their canonical spelling. */
  predicate AnchorFits(k: Codecs, a: Anchor) {
    match a
    case ANone => true
    case ABool(_) => true
    case AInt(n) => n < Pow(10, 128) && -n < Pow(10, 128)
    case AStr(s) => |s| <= 4096
    case ABytes(bytes) => |bytes| <= 4096
    case AText(kind, text) => k.canonical(kind, text)
  }

  lemma IntegersFit(n: int)
    ensures ValidInt(n) <==> n < Pow(10, 128) && -n < Pow(10, 128)
  {
    ScaledFractions.DigitsBound(if n < 0 then -n else n, 128);
  }

  lemma AnchorsAreEncoded(k: Codecs, a: Anchor)
    ensures EncodeValue(k, a).Some? <==> AnchorFits(k, a)
  {
    if a.AInt? {
      IntegersFit(a.n);
    }
  }

  lemma {:induction false} AnchorListsAreEncoded(k: Codecs, anchors: seq<Anchor>)
    ensures EncodeValues(k, anchors).Some? <==> forall i :: 0 <= i < |anchors| ==> AnchorFits(k, anchors[i])
  {
    if anchors != [] {
      AnchorListsAreEncoded(k, anchors[..|anchors| - 1]);
      AnchorsAreEncoded(k, anchors[|anchors| - 1]);
    }
  }

  /** The fields of a token, in the JSON object that is printed into it. */
  predicate CanBeToken(k: Codecs, c: Decoded, fingerprint: string) {
    && (c.direction == "forward" || c.direction == "backward") && 0 < c.sid < Pow(10, 128)
    && |fingerprint| == 64 && (forall i :: 0 <= i < 64 ==> fingerprint[i] in HEX)
    && |c.anchors| <= 32 && forall i :: 0 <= i < |c.anchors| ==> AnchorFits(k, c.anchors[i])
  }

  lemma FingerprintsAre(s: string)
    ensures ValidFingerprint(s) <==> |s| == 64 && forall i :: 0 <= i < 64 ==> s[i] in HEX
  {
    forall c ensures ('0' <= c <= '9' || 'a' <= c <= 'f') <==> c in HEX {
      HexDigits(c);
    }
    assert (forall c :: c in s ==> c in HEX) <==> forall i :: 0 <= i < |s| ==> s[i] in HEX;
  }

  /** A token can be made exactly of a direction, a positive record number, a fingerprint and at most 32 anchors
      that fit, if its payload takes at most 9000 bytes. */
  lemma TokensAreMade(k: Codecs, c: Decoded, fingerprint: string)
    ensures EncodeContinuation(k, c, fingerprint).Some? <==>
            && CanBeToken(k, c, fingerprint) && EncodeValues(k, c.anchors).Some?
            && |k.dumps(Payload(EncodeValues(k, c.anchors).value, c.direction, fingerprint, c.sid))| <= 9000
  {
    IntegersFit(c.sid);
    FingerprintsAre(fingerprint);
    AnchorListsAreEncoded(k, c.anchors);
    if EncodeValues(k, c.anchors).Some? {
      B64.EncodedLength(k.dumps(Payload(EncodeValues(k, c.anchors).value, c.direction, fingerprint, c.sid)));
    }
  }

  /** A text is accepted as a token of these contents exactly when it is the one that is made of them. */
  lemma TokensAreAccepted(k: Codecs, text: string, fingerprint: string, c: Decoded)
    requires CodecsOk(k)
    ensures DecodeContinuation(k, text, fingerprint, |c.anchors|) == Some(c)
       <==> EncodeContinuation(k, c, fingerprint) == Some(text)
  {
    if DecodeContinuation(k, text, fingerprint, |c.anchors|) == Some(c) {
      EncodeInvertsDecode(k, text, fingerprint, |c.anchors|);
    }
    if EncodeContinuation(k, c, fingerprint) == Some(text) {
      DecodeInvertsEncode(k, c, fingerprint);
    }
  }
}
