/**
 * The worked example of section 1.3 of RFC 6455, carried through the model
 * of the handshake: given that SHA-1 maps the example key and GUID to the
 * digest the RFC lists, the server answers with the accept value the RFC
 * lists.  SHA-1 itself is not part of this model.
 */
module HandshakeExample {
  import opened Base64
  import opened Handshake

  /** The client key of the example in section 1.3 of RFC 6455. */
  const EXAMPLE_KEY: string := "dGhlIHNhbXBsZSBub25jZQ=="

  /** SHA-1 of EXAMPLE_KEY followed by the GUID, as section 1.3 lists it. */
  const EXAMPLE_DIGEST: Digest :=
    [0xb3, 0x7a, 0x4f, 0x2c, 0xc0, 0x62, 0x4f, 0x16, 0x90, 0xf6,
     0x46, 0x06, 0xcf, 0x38, 0x59, 0x45, 0xb2, 0xbe, 0xc4, 0xea]

  /** Encoding octet i onwards: one group, then the rest. */
  lemma EncodeFrom(b: seq<byte>, i: nat)
    requires i + 3 < |b|
    ensures Encode(b[i..]) == EncodeGroup(b[i], b[i + 1], b[i + 2]) + Encode(b[i + 3..])
  {
    var t := b[i..];
    assert t[0] == b[i] && t[1] == b[i + 1] && t[2] == b[i + 2] && t[3..] == b[i + 3..];
  }

  lemma Group0()
    ensures EncodeGroup(0xb3, 0x7a, 0x4f) == "s3pP"
  {
  }

  lemma Group1()
    ensures EncodeGroup(0x2c, 0xc0, 0x62) == "LMBi"
  {
  }

  lemma Group2()
    ensures EncodeGroup(0x4f, 0x16, 0x90) == "TxaQ"
  {
  }

  lemma Group3()
    ensures EncodeGroup(0xf6, 0x46, 0x06) == "9kYG"
  {
  }

  lemma Group4()
    ensures EncodeGroup(0xcf, 0x38, 0x59) == "zzhZ"
  {
  }

  lemma Group5()
    ensures EncodeGroup(0x45, 0xb2, 0xbe) == "RbK+"
  {
  }

  lemma Group6()
    ensures Encode([0xc4, 0xea]) == "xOo="
  {
  }


  lemma EncodeExampleFrom15()
    ensures Encode(EXAMPLE_DIGEST[15..]) == "RbK+" + "xOo="
  {
    EncodeFrom(EXAMPLE_DIGEST, 15);
    assert EXAMPLE_DIGEST[15] == 0x45 && EXAMPLE_DIGEST[16] == 0xb2;
    assert EXAMPLE_DIGEST[17] == 0xbe;
    Group5();
    assert EXAMPLE_DIGEST[18..] == [0xc4, 0xea];
    Group6();
  }

  lemma EncodeExampleFrom12()
    ensures Encode(EXAMPLE_DIGEST[12..]) == "zzhZ" + ("RbK+" + "xOo=")
  {
    EncodeFrom(EXAMPLE_DIGEST, 12);
    assert EXAMPLE_DIGEST[12] == 0xcf && EXAMPLE_DIGEST[13] == 0x38;
    assert EXAMPLE_DIGEST[14] == 0x59;
    Group4();
    EncodeExampleFrom15();
  }

  lemma EncodeExampleFrom9()
    ensures Encode(EXAMPLE_DIGEST[9..]) == "9kYG" + ("zzhZ" + ("RbK+" + "xOo="))
  {
    EncodeFrom(EXAMPLE_DIGEST, 9);
    assert EXAMPLE_DIGEST[9] == 0xf6 && EXAMPLE_DIGEST[10] == 0x46;
    assert EXAMPLE_DIGEST[11] == 0x06;
    Group3();
    EncodeExampleFrom12();
  }

  lemma EncodeExampleFrom6()
    ensures Encode(EXAMPLE_DIGEST[6..]) == "TxaQ" + ("9kYG" + ("zzhZ" + ("RbK+" + "xOo=")))
  {
    EncodeFrom(EXAMPLE_DIGEST, 6);
    assert EXAMPLE_DIGEST[6] == 0x4f && EXAMPLE_DIGEST[7] == 0x16;
    assert EXAMPLE_DIGEST[8] == 0x90;
    Group2();
    EncodeExampleFrom9();
  }

  lemma EncodeExampleFrom3()
    ensures Encode(EXAMPLE_DIGEST[3..]) == "LMBi" + ("TxaQ" + ("9kYG" + ("zzhZ" + ("RbK+" + "xOo="))))
  {
    EncodeFrom(EXAMPLE_DIGEST, 3);
    assert EXAMPLE_DIGEST[3] == 0x2c && EXAMPLE_DIGEST[4] == 0xc0;
    assert EXAMPLE_DIGEST[5] == 0x62;
    Group1();
    EncodeExampleFrom6();
  }

  lemma EncodeExampleFrom0()
    ensures Encode(EXAMPLE_DIGEST[0..]) == "s3pP" + ("LMBi" + ("TxaQ" + ("9kYG" + ("zzhZ" + ("RbK+" + "xOo=")))))
  {
    EncodeFrom(EXAMPLE_DIGEST, 0);
    assert EXAMPLE_DIGEST[0] == 0xb3 && EXAMPLE_DIGEST[1] == 0x7a;
    assert EXAMPLE_DIGEST[2] == 0x4f;
    Group0();
    EncodeExampleFrom3();
  }

  /**
   * The server's answer to the example request: "s3pPLMBiTxaQ9kYGzzhZRbK+xOo=",
   * written as its seven 4-character groups.
   */
  lemma Rfc6455Example(sha1: string -> Digest)
    requires sha1(EXAMPLE_KEY + WEBSOCKET_GUID) == EXAMPLE_DIGEST
    ensures AcceptValue(EXAMPLE_KEY, sha1) ==
            "s3pP" + ("LMBi" + ("TxaQ" + ("9kYG" + ("zzhZ" + ("RbK+" + "xOo=")))))
  {
    assert AcceptValue(EXAMPLE_KEY, sha1) == Encode(EXAMPLE_DIGEST);
    assert EXAMPLE_DIGEST[0..] == EXAMPLE_DIGEST;
    EncodeExampleFrom0();
  }
}
