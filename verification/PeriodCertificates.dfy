/**
 Certificates for the order of z: its power for 2^100 - 1, and the ones for that number divided by each
 of its prime factors, five binary digits of the exponent at a time.
 */
module PeriodCertificates {
  import opened WordPolynomials

  /** n is 2^100 - 1. */
  predicate IsPeriod(n: nat) {
    2 * n + 2 == 0x20000000000000000000000000
  }

  /** From z^e to z^e', where e' is e with five more digits, given from the lowest to the highest bit. */
  lemma Further(x: Wide, e: nat, digits: bv16, y: Wide) returns (e': nat)
    requires Power(e) == x && Passes(x, digits, 5) == y
    ensures Power(e') == y && e' == Raised(e, digits, 5)
  {
    e' := PassesRaise(e, digits, 5);
  }

  lemma HalfWay1() returns (e: nat)
    ensures 2 * e == 2251799813685246 && Power(e) == 0x2eb3d8948822f8ccc158e62ef
  {
    e := 0;
    e := Further(0x1 as Wide, e, 0x1f as bv16, 0x80000000);
    e := Further(0x80000000 as Wide, e, 0x1f as bv16, 0x2000040080100020000880000);
    e := Further(0x2000040080100020000880000 as Wide, e, 0x1f as bv16, 0x10aa9094b9817288e09c0b105);
    e := Further(0x10aa9094b9817288e09c0b105 as Wide, e, 0x1f as bv16, 0x46165821f02074e70d77c0104);
    e := Further(0x46165821f02074e70d77c0104 as Wide, e, 0x1f as bv16, 0x58b3b164031507dcc1df16e27);
    e := Further(0x58b3b164031507dcc1df16e27 as Wide, e, 0x1f as bv16, 0x4803be25f02fb40536257fe98);
    e := Further(0x4803be25f02fb40536257fe98 as Wide, e, 0x1f as bv16, 0x93a6e9e99f450e6c2c9b4bec);
    e := Further(0x93a6e9e99f450e6c2c9b4bec as Wide, e, 0x1f as bv16, 0x171584bd43f7eb031e6f5e3de);
    e := Further(0x171584bd43f7eb031e6f5e3de as Wide, e, 0x1f as bv16, 0x3211b9c35a7eb267c9326ade9);
    e := Further(0x3211b9c35a7eb267c9326ade9 as Wide, e, 0x1f as bv16, 0x2eb3d8948822f8ccc158e62ef);
  }

  lemma PowerFor1() returns (e: nat)
    ensures IsPeriod(e) && Power(e) == 1
  {
    e := HalfWay1();
    e := Further(0x2eb3d8948822f8ccc158e62ef as Wide, e, 0x1f as bv16, 0x458b8d3b0a0849aeaab8ec062);
    e := Further(0x458b8d3b0a0849aeaab8ec062 as Wide, e, 0x1f as bv16, 0x7d7823994aeea0a0ad2248145);
    e := Further(0x7d7823994aeea0a0ad2248145 as Wide, e, 0x1f as bv16, 0x8f5ecd339076b420d9bebee1b);
    e := Further(0x8f5ecd339076b420d9bebee1b as Wide, e, 0x1f as bv16, 0xaaa5c11c007e27da5d4ab3e5e);
    e := Further(0xaaa5c11c007e27da5d4ab3e5e as Wide, e, 0x1f as bv16, 0x685dff849b715bf8219bb4c91);
    e := Further(0x685dff849b715bf8219bb4c91 as Wide, e, 0x1f as bv16, 0x4465f54f99518ea3a44bdd804);
    e := Further(0x4465f54f99518ea3a44bdd804 as Wide, e, 0x1f as bv16, 0x5c1470449982d11ea87019589);
    e := Further(0x5c1470449982d11ea87019589 as Wide, e, 0x1f as bv16, 0x4cd0258a6020443098c551304);
    e := Further(0x4cd0258a6020443098c551304 as Wide, e, 0x1f as bv16, 0x104000002000001020820a);
    e := Further(0x104000002000001020820a as Wide, e, 0x1f as bv16, 0x1);
  }

  lemma HalfWay3() returns (e: nat)
    ensures 2 * e == 750599937895082 && Power(e) == 0x2d1e7fc862d7e22115d10bf46
  {
    e := 0;
    e := Further(0x1 as Wide, e, 0xa as bv16, 0x400);
    e := Further(0x400 as Wide, e, 0x15 as bv16, 0x20040000000020000008000);
    e := Further(0x20040000000020000008000 as Wide, e, 0xa as bv16, 0x409c309404c4c1c4012445204);
    e := Further(0x409c309404c4c1c4012445204 as Wide, e, 0x15 as bv16, 0xb13a975130c3c44ac7adcf046);
    e := Further(0xb13a975130c3c44ac7adcf046 as Wide, e, 0xa as bv16, 0x428bdf0aa11ba45576501f82d);
    e := Further(0x428bdf0aa11ba45576501f82d as Wide, e, 0x15 as bv16, 0xbbe6c789e8c4ab78b9686ed0);
    e := Further(0xbbe6c789e8c4ab78b9686ed0 as Wide, e, 0xa as bv16, 0x33c72a731a025e73d76db50f1);
    e := Further(0x33c72a731a025e73d76db50f1 as Wide, e, 0x15 as bv16, 0x66ed6c77d4ce679e345dd14e5);
    e := Further(0x66ed6c77d4ce679e345dd14e5 as Wide, e, 0xa as bv16, 0x2a0c00c0a60df961b083ae128);
    e := Further(0x2a0c00c0a60df961b083ae128 as Wide, e, 0x15 as bv16, 0x2d1e7fc862d7e22115d10bf46);
  }

  lemma PowerFor3() returns (e: nat)
    ensures IsPeriod(3 * e) && Power(e) & 254 != 0
  {
    e := HalfWay3();
    e := Further(0x2d1e7fc862d7e22115d10bf46 as Wide, e, 0xa as bv16, 0x8ca276c01f47ef1c7dd5452c5);
    e := Further(0x8ca276c01f47ef1c7dd5452c5 as Wide, e, 0x15 as bv16, 0xc92dbfbf0c3bab759fb492069);
    e := Further(0xc92dbfbf0c3bab759fb492069 as Wide, e, 0xa as bv16, 0xb20f71e48c8891e80b16ff498);
    e := Further(0xb20f71e48c8891e80b16ff498 as Wide, e, 0x15 as bv16, 0x3abfd44a7f35940a9de9a5879);
    e := Further(0x3abfd44a7f35940a9de9a5879 as Wide, e, 0xa as bv16, 0x23a854eb5a34c7320e38ac2f6);
    e := Further(0x23a854eb5a34c7320e38ac2f6 as Wide, e, 0x15 as bv16, 0xf392041e78adc752dd573fd5);
    e := Further(0xf392041e78adc752dd573fd5 as Wide, e, 0xa as bv16, 0x79e1255c30775ab1d6da20953);
    e := Further(0x79e1255c30775ab1d6da20953 as Wide, e, 0x15 as bv16, 0xc4741c8f7096d1ee9646d972e);
    e := Further(0xc4741c8f7096d1ee9646d972e as Wide, e, 0xa as bv16, 0xffbe09c09f3ed683dcb1f5430);
    e := Further(0xffbe09c09f3ed683dcb1f5430 as Wide, e, 0x15 as bv16, 0x51534040001563367353375a6);
  }

  lemma HalfWay5() returns (e: nat)
    ensures 2 * e == 450359962737048 && Power(e) == 0x73711745fdbb8bc4730bf695a
  {
    e := 0;
    e := Further(0x1 as Wide, e, 0xc as bv16, 0x40);
    e := Further(0x40 as Wide, e, 0x6 as bv16, 0x40000000000000000010);
    e := Further(0x40000000000000000010 as Wide, e, 0x13 as bv16, 0x48000030404048009222024);
    e := Further(0x48000030404048009222024 as Wide, e, 0x19 as bv16, 0x98168ab080223108320194688);
    e := Further(0x98168ab080223108320194688 as Wide, e, 0xc as bv16, 0x58fc95cd564129984c6d21220);
    e := Further(0x58fc95cd564129984c6d21220 as Wide, e, 0x6 as bv16, 0xcea290984e2eafdb3e3c7dbf);
    e := Further(0xcea290984e2eafdb3e3c7dbf as Wide, e, 0x13 as bv16, 0x76e5f08d0c16fb0518e094b0e);
    e := Further(0x76e5f08d0c16fb0518e094b0e as Wide, e, 0x19 as bv16, 0x958b5bfe75f8da62312db24df);
    e := Further(0x958b5bfe75f8da62312db24df as Wide, e, 0xc as bv16, 0xa0150fadc58e1a6faf30975fa);
    e := Further(0xa0150fadc58e1a6faf30975fa as Wide, e, 0x6 as bv16, 0x73711745fdbb8bc4730bf695a);
  }

  lemma PowerFor5() returns (e: nat)
    ensures IsPeriod(5 * e) && Power(e) & 254 != 0
  {
    e := HalfWay5();
    e := Further(0x73711745fdbb8bc4730bf695a as Wide, e, 0x13 as bv16, 0xebd59ee47bf704601b2ff6a9a);
    e := Further(0xebd59ee47bf704601b2ff6a9a as Wide, e, 0x19 as bv16, 0x8f53791ff645bbc18570b6e7b);
    e := Further(0x8f53791ff645bbc18570b6e7b as Wide, e, 0xc as bv16, 0x86addb7c40c97d3277f8567b2);
    e := Further(0x86addb7c40c97d3277f8567b2 as Wide, e, 0x6 as bv16, 0x4689e7a469ae8470377ecd71);
    e := Further(0x4689e7a469ae8470377ecd71 as Wide, e, 0x13 as bv16, 0x2c28a87317b4bef7c9c07702d);
    e := Further(0x2c28a87317b4bef7c9c07702d as Wide, e, 0x19 as bv16, 0x554ebf89ffe7434d8c7bbdcb3);
    e := Further(0x554ebf89ffe7434d8c7bbdcb3 as Wide, e, 0xc as bv16, 0x3558e24ac832703b21418927e);
    e := Further(0x3558e24ac832703b21418927e as Wide, e, 0x6 as bv16, 0xccc11afa4d1aa550369a01d1a);
    e := Further(0xccc11afa4d1aa550369a01d1a as Wide, e, 0x13 as bv16, 0xba38397e8b5b2447ee3e1b760);
    e := Further(0xba38397e8b5b2447ee3e1b760 as Wide, e, 0x19 as bv16, 0x451146400fcfad86517ce2752);
  }

  lemma HalfWay11() returns (e: nat)
    ensures 2 * e == 204709073971386 && Power(e) == 0xa5a64bb11cf26f10f448c5144
  {
    e := 0;
    e := Further(0x1 as Wide, e, 0x8 as bv16, 0x4);
    e := Further(0x4 as Wide, e, 0x17 as bv16, 0x200000000000000000000000);
    e := Further(0x200000000000000000000000 as Wide, e, 0x8 as bv16, 0x800014000c410000004008041);
    e := Further(0x800014000c410000004008041 as Wide, e, 0x17 as bv16, 0x65b20824cd24b3c67d4862cc2);
    e := Further(0x65b20824cd24b3c67d4862cc2 as Wide, e, 0x8 as bv16, 0x4f11a1e3a0980b07f833e2f51);
    e := Further(0x4f11a1e3a0980b07f833e2f51 as Wide, e, 0x17 as bv16, 0x1441834fd4e67d081280b3254);
    e := Further(0x1441834fd4e67d081280b3254 as Wide, e, 0x8 as bv16, 0xe5b8298a8139bf6cb175516d5);
    e := Further(0xe5b8298a8139bf6cb175516d5 as Wide, e, 0x17 as bv16, 0x1a0dba56b4602e985eca18b44);
    e := Further(0x1a0dba56b4602e985eca18b44 as Wide, e, 0x8 as bv16, 0xeb0d1106cb90c3a82e78c97d5);
    e := Further(0xeb0d1106cb90c3a82e78c97d5 as Wide, e, 0x17 as bv16, 0xa5a64bb11cf26f10f448c5144);
  }

  lemma PowerFor11() returns (e: nat)
    ensures IsPeriod(11 * e) && Power(e) & 254 != 0
  {
    e := HalfWay11();
    e := Further(0xa5a64bb11cf26f10f448c5144 as Wide, e, 0x8 as bv16, 0x76a81f183c0866fd0daacabe2);
    e := Further(0x76a81f183c0866fd0daacabe2 as Wide, e, 0x17 as bv16, 0xe74136fcef34231924d94ae31);
    e := Further(0xe74136fcef34231924d94ae31 as Wide, e, 0x8 as bv16, 0xfe58137a8bd5f613370b6fbf);
    e := Further(0xfe58137a8bd5f613370b6fbf as Wide, e, 0x17 as bv16, 0x457ea1f2cc119b5a066b41a6f);
    e := Further(0x457ea1f2cc119b5a066b41a6f as Wide, e, 0x8 as bv16, 0x4adddce926048114f8ea570bc);
    e := Further(0x4adddce926048114f8ea570bc as Wide, e, 0x17 as bv16, 0x3e768d7e53f31001ff033d155);
    e := Further(0x3e768d7e53f31001ff033d155 as Wide, e, 0x8 as bv16, 0xba5386be54a794ffb49bdbca4);
    e := Further(0xba5386be54a794ffb49bdbca4 as Wide, e, 0x17 as bv16, 0xa216e6c075294913cd3ca893);
    e := Further(0xa216e6c075294913cd3ca893 as Wide, e, 0x8 as bv16, 0x4ec76925c6cf4a7ca01ad204a);
    e := Further(0x4ec76925c6cf4a7ca01ad204a as Wide, e, 0x17 as bv16, 0x90636040e5c007ac812c5d48f);
  }

  lemma HalfWay31() returns (e: nat)
    ensures 2 * e == 72638703667266 && Power(e) == 0x465e22464c36bda0f0f7e167f
  {
    e := 0;
    e := Further(0x1 as Wide, e, 0x10 as bv16, 0x2);
    e := Further(0x2 as Wide, e, 0x10 as bv16, 0x200000000);
    e := Further(0x200000000 as Wide, e, 0x10 as bv16, 0x40008100222004080001002);
    e := Further(0x40008100222004080001002 as Wide, e, 0x10 as bv16, 0x400225282ca49233a2052ab0f);
    e := Further(0x400225282ca49233a2052ab0f as Wide, e, 0x10 as bv16, 0x63c3ac917b26910f79bc77499);
    e := Further(0x63c3ac917b26910f79bc77499 as Wide, e, 0x10 as bv16, 0x3312d24adbb921ba0f8232e2c);
    e := Further(0x3312d24adbb921ba0f8232e2c as Wide, e, 0x10 as bv16, 0x188e1f5bd52793d67226ee049);
    e := Further(0x188e1f5bd52793d67226ee049 as Wide, e, 0x10 as bv16, 0x5a1c897907db2013a687880a0);
    e := Further(0x5a1c897907db2013a687880a0 as Wide, e, 0x10 as bv16, 0xe372d1fe85bfc6ce98bc2bf09);
    e := Further(0xe372d1fe85bfc6ce98bc2bf09 as Wide, e, 0x10 as bv16, 0x465e22464c36bda0f0f7e167f);
  }

  lemma PowerFor31() returns (e: nat)
    ensures IsPeriod(31 * e) && Power(e) & 254 != 0
  {
    e := HalfWay31();
    e := Further(0x465e22464c36bda0f0f7e167f as Wide, e, 0x10 as bv16, 0x607ef142795c053eb684d3f1f);
    e := Further(0x607ef142795c053eb684d3f1f as Wide, e, 0x10 as bv16, 0x97cfaab8722d97de854bbea78);
    e := Further(0x97cfaab8722d97de854bbea78 as Wide, e, 0x10 as bv16, 0xdc232fa9e51b490b978652f5b);
    e := Further(0xdc232fa9e51b490b978652f5b as Wide, e, 0x10 as bv16, 0x6196951e7722a2b7964e5fb6);
    e := Further(0x6196951e7722a2b7964e5fb6 as Wide, e, 0x10 as bv16, 0xc3c4a55163e2195cf10613289);
    e := Further(0xc3c4a55163e2195cf10613289 as Wide, e, 0x10 as bv16, 0xa8b39cfbe8023189572b0286e);
    e := Further(0xa8b39cfbe8023189572b0286e as Wide, e, 0x10 as bv16, 0x6a24a232b074210c357ce904a);
    e := Further(0x6a24a232b074210c357ce904a as Wide, e, 0x10 as bv16, 0x1ff1ed62675e7ae5fbab760c0);
    e := Further(0x1ff1ed62675e7ae5fbab760c0 as Wide, e, 0x10 as bv16, 0x81e2513c2a92f85adb68fbb1e);
    e := Further(0x81e2513c2a92f85adb68fbb1e as Wide, e, 0x10 as bv16, 0x8a9244ef10e7a0d718f7c9a7);
  }

  lemma HalfWay41() returns (e: nat)
    ensures 2 * e == 54921946675248 && Power(e) == 0xb1bbd2108b08eb83baaa9aeea
  {
    e := 0;
    e := Further(0x1 as Wide, e, 0x0 as bv16, 0x1);
    e := Further(0x1 as Wide, e, 0x3 as bv16, 0x1000000);
    e := Further(0x1000000 as Wide, e, 0x1f as bv16, 0x8800000200000081000000040);
    e := Further(0x8800000200000081000000040 as Wide, e, 0x1c as bv16, 0x924828119683850108b0c889);
    e := Further(0x924828119683850108b0c889 as Wide, e, 0x0 as bv16, 0x6e1d06e6ea7b1653af2addbb7);
    e := Further(0x6e1d06e6ea7b1653af2addbb7 as Wide, e, 0x3 as bv16, 0x11d9c6d021576815e3486d4fa);
    e := Further(0x11d9c6d021576815e3486d4fa as Wide, e, 0x1f as bv16, 0x9b79707d938aa9f99f0a8850d);
    e := Further(0x9b79707d938aa9f99f0a8850d as Wide, e, 0x1c as bv16, 0x7dfdc443682355c81e0d552bc);
    e := Further(0x7dfdc443682355c81e0d552bc as Wide, e, 0x0 as bv16, 0xb4be1aacbfc7015d9de38c402);
    e := Further(0xb4be1aacbfc7015d9de38c402 as Wide, e, 0x3 as bv16, 0xb1bbd2108b08eb83baaa9aeea);
  }

  lemma PowerFor41() returns (e: nat)
    ensures IsPeriod(41 * e) && Power(e) & 254 != 0
  {
    e := HalfWay41();
    e := Further(0xb1bbd2108b08eb83baaa9aeea as Wide, e, 0x1f as bv16, 0x753179d03898f18da01bf2f0);
    e := Further(0x753179d03898f18da01bf2f0 as Wide, e, 0x1c as bv16, 0x83364efbd908a9d0a62781522);
    e := Further(0x83364efbd908a9d0a62781522 as Wide, e, 0x0 as bv16, 0x7b3bfc454bc122f1a0787d96d);
    e := Further(0x7b3bfc454bc122f1a0787d96d as Wide, e, 0x3 as bv16, 0x613cb45ccbb6f60587204e683);
    e := Further(0x613cb45ccbb6f60587204e683 as Wide, e, 0x1f as bv16, 0x17847ca9bb4102a249ba70bac);
    e := Further(0x17847ca9bb4102a249ba70bac as Wide, e, 0x1c as bv16, 0x6626bbc541351209e2aeea167);
    e := Further(0x6626bbc541351209e2aeea167 as Wide, e, 0x0 as bv16, 0x63bfe357f006577a263f85233);
    e := Further(0x63bfe357f006577a263f85233 as Wide, e, 0x3 as bv16, 0xab7986cb1a7be376ec9c1ae8);
    e := Further(0xab7986cb1a7be376ec9c1ae8 as Wide, e, 0x1f as bv16, 0x9b17bf0a72a89e6936eeac5fe);
    e := Further(0x9b17bf0a72a89e6936eeac5fe as Wide, e, 0x1c as bv16, 0x140907b90ff69d98429fffbc6);
  }

  lemma HalfWay101() returns (e: nat)
    ensures 2 * e == 22295047660248 && Power(e) == 0x50e1ce773fa6ccfb2ce9a8d21
  {
    e := 0;
    e := Further(0x1 as Wide, e, 0x0 as bv16, 0x1);
    e := Further(0x1 as Wide, e, 0xa as bv16, 0x400);
    e := Further(0x400 as Wide, e, 0x4 as bv16, 0x4000001002000000801000000);
    e := Further(0x4000001002000000801000000 as Wide, e, 0x16 as bv16, 0x49c22012006c404090861224);
    e := Further(0x49c22012006c404090861224 as Wide, e, 0xf as bv16, 0x78b15a92b5a3545ef49e908c2);
    e := Further(0x78b15a92b5a3545ef49e908c2 as Wide, e, 0x18 as bv16, 0x6f51f462137fa03e2dd3e366a);
    e := Further(0x6f51f462137fa03e2dd3e366a as Wide, e, 0x14 as bv16, 0xc5d8872a721935a303c28af1d);
    e := Further(0xc5d8872a721935a303c28af1d as Wide, e, 0x6 as bv16, 0x653b8b7e529c3e6ba83a681db);
    e := Further(0x653b8b7e529c3e6ba83a681db as Wide, e, 0x1a as bv16, 0x290e6da2249bf53870335514c);
    e := Further(0x290e6da2249bf53870335514c as Wide, e, 0x6 as bv16, 0x50e1ce773fa6ccfb2ce9a8d21);
  }

  lemma PowerFor101() returns (e: nat)
    ensures IsPeriod(101 * e) && Power(e) & 254 != 0
  {
    e := HalfWay101();
    e := Further(0x50e1ce773fa6ccfb2ce9a8d21 as Wide, e, 0x1f as bv16, 0x6de1e4b734949f718567d650d);
    e := Further(0x6de1e4b734949f718567d650d as Wide, e, 0x15 as bv16, 0x3b0c98a4580f1dbff1aff709a);
    e := Further(0x3b0c98a4580f1dbff1aff709a as Wide, e, 0x1b as bv16, 0xa974781753135b2034648812e);
    e := Further(0xa974781753135b2034648812e as Wide, e, 0x9 as bv16, 0xaa3a4199afc504cd5b61aae7c);
    e := Further(0xaa3a4199afc504cd5b61aae7c as Wide, e, 0x10 as bv16, 0x8fe3706d707d738bade474b9b);
    e := Further(0x8fe3706d707d738bade474b9b as Wide, e, 0x7 as bv16, 0xd9283b9c3b58bcdc8c1b11c31);
    e := Further(0xd9283b9c3b58bcdc8c1b11c31 as Wide, e, 0xb as bv16, 0xdde5970691d0c51a73ebd7568);
    e := Further(0xdde5970691d0c51a73ebd7568 as Wide, e, 0x19 as bv16, 0xa2218a207454aec8beb79f22d);
    e := Further(0xa2218a207454aec8beb79f22d as Wide, e, 0x5 as bv16, 0x9a865c89bb3580cd76ed8eff3);
    e := Further(0x9a865c89bb3580cd76ed8eff3 as Wide, e, 0x19 as bv16, 0x74acd5b33f5291f1399c77725);
  }

  lemma HalfWay251() returns (e: nat)
    ensures 2 * e == 8971313998746 && Power(e) == 0x987167df59c5f832151698c2c
  {
    e := 0;
    e := Further(0x1 as Wide, e, 0x0 as bv16, 0x1);
    e := Further(0x1 as Wide, e, 0x4 as bv16, 0x10);
    e := Further(0x10 as Wide, e, 0x8 as bv16, 0x80000000040000000);
    e := Further(0x80000000040000000 as Wide, e, 0x11 as bv16, 0x6840c2200322a604408b04202);
    e := Further(0x6840c2200322a604408b04202 as Wide, e, 0x9 as bv16, 0x91c495510571d320afc505175);
    e := Further(0x91c495510571d320afc505175 as Wide, e, 0x1f as bv16, 0x8115ffd26fca513f09aefc22a);
    e := Further(0x8115ffd26fca513f09aefc22a as Wide, e, 0x1b as bv16, 0x2c71fb90a04102c7b6836d264);
    e := Further(0x2c71fb90a04102c7b6836d264 as Wide, e, 0x17 as bv16, 0xd47720d5c6da9416a8a141f69);
    e := Further(0xd47720d5c6da9416a8a141f69 as Wide, e, 0xe as bv16, 0xdd96906fcadcda66735f6b1d7);
    e := Further(0xdd96906fcadcda66735f6b1d7 as Wide, e, 0x16 as bv16, 0x987167df59c5f832151698c2c);
  }

  lemma PowerFor251() returns (e: nat)
    ensures IsPeriod(251 * e) && Power(e) & 254 != 0
  {
    e := HalfWay251();
    e := Further(0x987167df59c5f832151698c2c as Wide, e, 0x0 as bv16, 0x1ce9b9bbbbb2ad311a192d8c7);
    e := Further(0x1ce9b9bbbbb2ad311a192d8c7 as Wide, e, 0x4 as bv16, 0xc5d40cd8fd079e61bcefe1282);
    e := Further(0xc5d40cd8fd079e61bcefe1282 as Wide, e, 0x8 as bv16, 0xe83c6e4f6edf0ebb37262afc4);
    e := Further(0xe83c6e4f6edf0ebb37262afc4 as Wide, e, 0x11 as bv16, 0x71d2f27cf90790a93593109cb);
    e := Further(0x71d2f27cf90790a93593109cb as Wide, e, 0x9 as bv16, 0xd44b3776f5c7cb743b777f04d);
    e := Further(0xd44b3776f5c7cb743b777f04d as Wide, e, 0x1f as bv16, 0x5bf30594b57335871cc47e7de);
    e := Further(0x5bf30594b57335871cc47e7de as Wide, e, 0x1b as bv16, 0x2236edfd0be8c2a6847eb5231);
    e := Further(0x2236edfd0be8c2a6847eb5231 as Wide, e, 0x17 as bv16, 0xb56db3d99e072a3919cf729d7);
    e := Further(0xb56db3d99e072a3919cf729d7 as Wide, e, 0xe as bv16, 0x6a65dba4a2a42a6fc603582f5);
    e := Further(0x6a65dba4a2a42a6fc603582f5 as Wide, e, 0x16 as bv16, 0x3c4b6c6fc6f9205e7dfd116f7);
  }

  lemma HalfWay601() returns (e: nat)
    ensures 2 * e == 3746755097646 && Power(e) == 0x51bf701a537f2365998e78e1c
  {
    e := 0;
    e := Further(0x1 as Wide, e, 0x0 as bv16, 0x1);
    e := Further(0x1 as Wide, e, 0x10 as bv16, 0x2);
    e := Further(0x2 as Wide, e, 0xd as bv16, 0x40000000000000);
    e := Further(0x40000000000000 as Wide, e, 0x1 as bv16, 0x202000000181100000440);
    e := Further(0x202000000181100000440 as Wide, e, 0x1d as bv16, 0x981059a4e14898e00b0291db4);
    e := Further(0x981059a4e14898e00b0291db4 as Wide, e, 0x0 as bv16, 0x6376b031c33d5c2ab78d1ec0c);
    e := Further(0x6376b031c33d5c2ab78d1ec0c as Wide, e, 0x10 as bv16, 0xcc2f11316ea53acfbcca549fe);
    e := Further(0xcc2f11316ea53acfbcca549fe as Wide, e, 0xd as bv16, 0x453a7db17f7319f56c06090ec);
    e := Further(0x453a7db17f7319f56c06090ec as Wide, e, 0x1 as bv16, 0xf97aded29dd2596013f385864);
    e := Further(0xf97aded29dd2596013f385864 as Wide, e, 0x1d as bv16, 0x51bf701a537f2365998e78e1c);
  }

  lemma PowerFor601() returns (e: nat)
    ensures IsPeriod(601 * e) && Power(e) & 254 != 0
  {
    e := HalfWay601();
    e := Further(0x51bf701a537f2365998e78e1c as Wide, e, 0x0 as bv16, 0x680341f004cc047e060ae9b72);
    e := Further(0x680341f004cc047e060ae9b72 as Wide, e, 0x10 as bv16, 0x29d22f104b386c0bc4f98c36b);
    e := Further(0x29d22f104b386c0bc4f98c36b as Wide, e, 0xd as bv16, 0xf792c86b3e759a5e897e809f6);
    e := Further(0xf792c86b3e759a5e897e809f6 as Wide, e, 0x1 as bv16, 0xcca6789c27100a38f36e5bc62);
    e := Further(0xcca6789c27100a38f36e5bc62 as Wide, e, 0x1d as bv16, 0x812b3b88f0fe43c6ac13c21d);
    e := Further(0x812b3b88f0fe43c6ac13c21d as Wide, e, 0x0 as bv16, 0x618e806fe887203e707ab35b);
    e := Further(0x618e806fe887203e707ab35b as Wide, e, 0x10 as bv16, 0x3878310d94478782297b44009);
    e := Further(0x3878310d94478782297b44009 as Wide, e, 0xd as bv16, 0xa9641c2c9b0ff123815029196);
    e := Further(0xa9641c2c9b0ff123815029196 as Wide, e, 0x1 as bv16, 0xde82d971d4a9611cd1210adb6);
    e := Further(0xde82d971d4a9611cd1210adb6 as Wide, e, 0x1d as bv16, 0xa61395de231cf2830ead7a40f);
  }

  lemma HalfWay1801() returns (e: nat)
    ensures 2 * e == 1250305282446 && Power(e) == 0x476508d7306b54fdebde6fc36
  {
    e := 0;
    e := Further(0x1 as Wide, e, 0x0 as bv16, 0x1);
    e := Further(0x1 as Wide, e, 0x0 as bv16, 0x1);
    e := Further(0x1 as Wide, e, 0x9 as bv16, 0x40000);
    e := Further(0x40000 as Wide, e, 0xc as bv16, 0x440080100000040080010);
    e := Further(0x440080100000040080010 as Wide, e, 0x1c as bv16, 0xc81f10829a00e4f8899822e78);
    e := Further(0xc81f10829a00e4f8899822e78 as Wide, e, 0x0 as bv16, 0x5ae2fe4f4f17dd8d941af5395);
    e := Further(0x5ae2fe4f4f17dd8d941af5395 as Wide, e, 0x0 as bv16, 0xd6bf4ba50ac95fe6e04bff1c3);
    e := Further(0xd6bf4ba50ac95fe6e04bff1c3 as Wide, e, 0x9 as bv16, 0x6d14ea673f394ae97155651dc);
    e := Further(0x6d14ea673f394ae97155651dc as Wide, e, 0xc as bv16, 0x26b274737fa50f1ae520c0f87);
    e := Further(0x26b274737fa50f1ae520c0f87 as Wide, e, 0x1c as bv16, 0x476508d7306b54fdebde6fc36);
  }

  lemma PowerFor1801() returns (e: nat)
    ensures IsPeriod(1801 * e) && Power(e) & 254 != 0
  {
    e := HalfWay1801();
    e := Further(0x476508d7306b54fdebde6fc36 as Wide, e, 0x0 as bv16, 0x396fa3e0908ec35606f7acf2c);
    e := Further(0x396fa3e0908ec35606f7acf2c as Wide, e, 0x0 as bv16, 0xb91e39b34514e9dff30bcf563);
    e := Further(0xb91e39b34514e9dff30bcf563 as Wide, e, 0x9 as bv16, 0x4d9f12572bcceed97db32076b);
    e := Further(0x4d9f12572bcceed97db32076b as Wide, e, 0xc as bv16, 0xecb59bdaa1a03c803bc237929);
    e := Further(0xecb59bdaa1a03c803bc237929 as Wide, e, 0x1c as bv16, 0x15d17470909a84a960be944bb);
    e := Further(0x15d17470909a84a960be944bb as Wide, e, 0x0 as bv16, 0x5b89291c030f56e4540ab946b);
    e := Further(0x5b89291c030f56e4540ab946b as Wide, e, 0x0 as bv16, 0x648d91b097ffadfdda1c53f6f);
    e := Further(0x648d91b097ffadfdda1c53f6f as Wide, e, 0x9 as bv16, 0xe53c8b4e48b976aaaefea3d7a);
    e := Further(0xe53c8b4e48b976aaaefea3d7a as Wide, e, 0xc as bv16, 0xa26de64a35dc492948c1c7000);
    e := Further(0xa26de64a35dc492948c1c7000 as Wide, e, 0x1c as bv16, 0x82f4243215824756e846e435f);
  }

  lemma HalfWay4051() returns (e: nat)
    ensures 2 * e == 555862703946 && Power(e) == 0x1d5ba48edf633ecbfe90a78b0
  {
    e := 0;
    e := Further(0x1 as Wide, e, 0x0 as bv16, 0x1);
    e := Further(0x1 as Wide, e, 0x0 as bv16, 0x1);
    e := Further(0x1 as Wide, e, 0x2 as bv16, 0x100);
    e := Further(0x100 as Wide, e, 0x8 as bv16, 0x200400000100000000);
    e := Further(0x200400000100000000 as Wide, e, 0xb as bv16, 0x17008005829856406454809a0);
    e := Further(0x17008005829856406454809a0 as Wide, e, 0x1f as bv16, 0x1be36e41292e1a72490460391);
    e := Further(0x1be36e41292e1a72490460391 as Wide, e, 0x1f as bv16, 0x6e649182b91b0e1a6c87e2bad);
    e := Further(0x6e649182b91b0e1a6c87e2bad as Wide, e, 0x1d as bv16, 0xa2949f28a6f3ce95b863c131d);
    e := Further(0xa2949f28a6f3ce95b863c131d as Wide, e, 0x17 as bv16, 0xd8351977a5dec0cc69a539164);
    e := Further(0xd8351977a5dec0cc69a539164 as Wide, e, 0x14 as bv16, 0x1d5ba48edf633ecbfe90a78b0);
  }

  lemma PowerFor4051() returns (e: nat)
    ensures IsPeriod(4051 * e) && Power(e) & 254 != 0
  {
    e := HalfWay4051();
    e := Further(0x1d5ba48edf633ecbfe90a78b0 as Wide, e, 0x0 as bv16, 0x5928404b4cab7b950c32ff8c7);
    e := Further(0x5928404b4cab7b950c32ff8c7 as Wide, e, 0x0 as bv16, 0x40ce1603b9786c04ec5525e04);
    e := Further(0x40ce1603b9786c04ec5525e04 as Wide, e, 0x2 as bv16, 0x2617fadf284b6e90e0ac8ebac);
    e := Further(0x2617fadf284b6e90e0ac8ebac as Wide, e, 0x8 as bv16, 0x511b7522240ec4beb6a578ded);
    e := Further(0x511b7522240ec4beb6a578ded as Wide, e, 0xb as bv16, 0x87dec07a8e7ca311672d1bb12);
    e := Further(0x87dec07a8e7ca311672d1bb12 as Wide, e, 0x1f as bv16, 0x6536658e6f25c3fb2d89626a2);
    e := Further(0x6536658e6f25c3fb2d89626a2 as Wide, e, 0x1f as bv16, 0x75ba25b4857574a3ce1db7e2a);
    e := Further(0x75ba25b4857574a3ce1db7e2a as Wide, e, 0x1d as bv16, 0x1d72d58dc744972cd24f9ca20);
    e := Further(0x1d72d58dc744972cd24f9ca20 as Wide, e, 0x17 as bv16, 0xee486f6b2390f3b2fdeed0fb9);
    e := Further(0xee486f6b2390f3b2fdeed0fb9 as Wide, e, 0x14 as bv16, 0x1c8bf1a23243e06c9487dc67a);
  }

  lemma HalfWay8101() returns (e: nat)
    ensures 2 * e == 277965660248 && Power(e) == 0x71673fae38cc4da6fbfb5067d
  {
    e := 0;
    e := Further(0x1 as Wide, e, 0x0 as bv16, 0x1);
    e := Further(0x1 as Wide, e, 0x0 as bv16, 0x1);
    e := Further(0x1 as Wide, e, 0x4 as bv16, 0x10);
    e := Further(0x10 as Wide, e, 0x10 as bv16, 0x40000000020000000);
    e := Further(0x40000000020000000 as Wide, e, 0xe as bv16, 0x811608404d081845024844400);
    e := Further(0x811608404d081845024844400 as Wide, e, 0x0 as bv16, 0x566a44933a1966008107c9285);
    e := Further(0x566a44933a1966008107c9285 as Wide, e, 0x1a as bv16, 0x38c91bde6ec32107ade49afe0);
    e := Further(0x38c91bde6ec32107ade49afe0 as Wide, e, 0x6 as bv16, 0x34a71dfde0f395daa2559b230);
    e := Further(0x34a71dfde0f395daa2559b230 as Wide, e, 0x10 as bv16, 0x648a056d2dff958ae397163d1);
    e := Further(0x648a056d2dff958ae397163d1 as Wide, e, 0x6 as bv16, 0x71673fae38cc4da6fbfb5067d);
  }

  lemma PowerFor8101() returns (e: nat)
    ensures IsPeriod(8101 * e) && Power(e) & 254 != 0
  {
    e := HalfWay8101();
    e := Further(0x71673fae38cc4da6fbfb5067d as Wide, e, 0x1f as bv16, 0x4404e3e55bb1b6ee21efe8675);
    e := Further(0x4404e3e55bb1b6ee21efe8675 as Wide, e, 0x1f as bv16, 0x2fe8a0474a4e6a1f0242b260a);
    e := Further(0x2fe8a0474a4e6a1f0242b260a as Wide, e, 0x1b as bv16, 0x78d9dc908014a744fbe93abc4);
    e := Further(0x78d9dc908014a744fbe93abc4 as Wide, e, 0xf as bv16, 0x88534f8e387f3bf98d41da723);
    e := Further(0x88534f8e387f3bf98d41da723 as Wide, e, 0x11 as bv16, 0x46f3b3f8bcf1c97bbab90d938);
    e := Further(0x46f3b3f8bcf1c97bbab90d938 as Wide, e, 0x1f as bv16, 0x67c9ae5b16d5db8fc4e1f1509);
    e := Further(0x67c9ae5b16d5db8fc4e1f1509 as Wide, e, 0x5 as bv16, 0x7bf75819120faaf8aa5619f81);
    e := Further(0x7bf75819120faaf8aa5619f81 as Wide, e, 0x19 as bv16, 0x9a1c99abcffbba4518f67d084);
    e := Further(0x9a1c99abcffbba4518f67d084 as Wide, e, 0xf as bv16, 0x6753ee2b0e8b610791c4c21e7);
    e := Further(0x6753ee2b0e8b610791c4c21e7 as Wide, e, 0x19 as bv16, 0x9764533785b5f646cca779761);
  }

  lemma HalfWay268501() returns (e: nat)
    ensures 2 * e == 8386560248 && Power(e) == 0x597034bfadb06f8b09c9a0f78
  {
    e := 0;
    e := Further(0x1 as Wide, e, 0x0 as bv16, 0x1);
    e := Further(0x1 as Wide, e, 0x0 as bv16, 0x1);
    e := Further(0x1 as Wide, e, 0x0 as bv16, 0x1);
    e := Further(0x1 as Wide, e, 0x18 as bv16, 0x8);
    e := Further(0x8 as Wide, e, 0x7 as bv16, 0x2000000001000000);
    e := Further(0x2000000001000000 as Wide, e, 0x1f as bv16, 0x8a00808b00002081080181040);
    e := Further(0x8a00808b00002081080181040 as Wide, e, 0x0 as bv16, 0x26cfc00221df07c02082d31);
    e := Further(0x26cfc00221df07c02082d31 as Wide, e, 0x3 as bv16, 0xab355910c8402c67a2623afea);
    e := Further(0xab355910c8402c67a2623afea as Wide, e, 0x18 as bv16, 0x36bd2bb5d5ad9978c915e68ca);
    e := Further(0x36bd2bb5d5ad9978c915e68ca as Wide, e, 0x7 as bv16, 0x597034bfadb06f8b09c9a0f78);
  }

  lemma PowerFor268501() returns (e: nat)
    ensures IsPeriod(268501 * e) && Power(e) & 254 != 0
  {
    e := HalfWay268501();
    e := Further(0x597034bfadb06f8b09c9a0f78 as Wide, e, 0x1f as bv16, 0x7c59c3f7c4d3a75119a0c3e43);
    e := Further(0x7c59c3f7c4d3a75119a0c3e43 as Wide, e, 0x1f as bv16, 0xc1fd99098feeca1d081a52e4e);
    e := Further(0xc1fd99098feeca1d081a52e4e as Wide, e, 0x1f as bv16, 0x478dede0dc052c93c3148907f);
    e := Further(0x478dede0dc052c93c3148907f as Wide, e, 0x7 as bv16, 0xa0f5b219c79e80d3c0cb6eb8d);
    e := Further(0xa0f5b219c79e80d3c0cb6eb8d as Wide, e, 0x18 as bv16, 0x10909e90984957eac3e15fcb5);
    e := Further(0x10909e90984957eac3e15fcb5 as Wide, e, 0x0 as bv16, 0xfedb2755ddba81a7193d574ac);
    e := Further(0xfedb2755ddba81a7193d574ac as Wide, e, 0x1f as bv16, 0xb4543d32f7181705d97d2bb22);
    e := Further(0xb4543d32f7181705d97d2bb22 as Wide, e, 0x1c as bv16, 0xcb4ed8893dcd9a3e7a23c55ee);
    e := Further(0xcb4ed8893dcd9a3e7a23c55ee as Wide, e, 0x7 as bv16, 0x5799d2e89debf33b153e392f5);
    e := Further(0x5799d2e89debf33b153e392f5 as Wide, e, 0x18 as bv16, 0x4b3daf414a2b56acea9890599);
  }
}
