/** Sample (L) of section 7.1 of RFC 3492, number by number: it fixes the digits, the thresholds and the first bias. */
module PunycodeSample {
  import opened Options
  import opened Products
  import opened Punycode

  lemma {:induction false} LastDigit(q: nat, k: nat, bias: nat, digit: char)
    requires q < Threshold(k, bias) && digit == Digit(q)
    ensures Number(q, k, bias) == [digit]
  {
  }

  lemma {:induction false} NextDigit(q: nat, k: nat, bias: nat, t: nat, digit: char, others: nat, rest: string)
    requires t == Threshold(k, bias) && t <= q && others == (q - t) / (36 - t) && digit == Digit(t + (q - t) % (36 - t))
    requires Number(others, k + 36, bias) == rest
    ensures Number(q, k, bias) == [digit] + rest
  {
  }

  lemma AdaptsTo(delta: nat, points: nat, first: bool, damped: nat, d: nat)
    requires points > 0 && damped == (if first then delta / 700 else delta / 2) && d == damped + damped / points
    ensures Adapt(delta, points, first) == Scale(d, 0)
  {
    hide Scale;
  }

  lemma InsertsAt(d: Decoder, delta: nat, points: nat, quotient: nat, at: nat)
    requires points == |d.output| + 1 && at < points && d.i + delta == quotient * points + at
    ensures Insert(d, d.i + delta) ==
            Decoder(d.n + quotient, at + 1, Adapt(delta, points, d.i == 0),
                    d.output[..at] + [d.n + quotient] + d.output[at..])
  {
    hide Adapt;
    DivideBack(quotient, points, at);
  }

  lemma {:induction false} ReadsOn(d: Decoder, input: string, e: Decoder, number: string, delta: nat, f: Decoder)
    requires Run(d, input) == Some(e) && Number(delta, BASE, e.bias) == number && Insert(e, e.i + delta) == f
    ensures Run(d, input + number) == Some(f)
  {
    NumberInserts(d, input, e, delta);
  }

  lemma {:induction false} Number1()
    ensures Number(62042, BASE, 72) == "ww4c"
  {
    LastDigit(2, 144, 72, 'c');
    NextDigit(50, 108, 72, 26, '4', 2, "c");
    NextDigit(1772, 72, 72, 1, 'w', 50, "4c");
    NextDigit(62042, 36, 72, 1, 'w', 1772, "w4c");
    hide Number;
  }

  lemma Bias1()
    ensures Adapt(62042, 3, true) == 27
  {
    hide *;
    AdaptsTo(62042, 3, true, 88, 117);
    ScaleGoesOn(117, 0);
  }

  lemma Output1(o: seq<nat>)
    requires o == [0x33, 0x42]
    ensures o[..2] + [0x5148] + o[2..] == [0x33, 0x42, 0x5148]
  {
  }

  lemma {:induction false} Sample1(d: Decoder)
    requires d == Decoder(0x80, 0, 72, [0x33, 0x42])
    ensures Number(62042, BASE, 72) == "ww4c"
    ensures Insert(d, d.i + 62042) ==
            Decoder(0x5148, 3, 27, [0x33, 0x42, 0x5148])
  {
    Number1();
    Bias1();
    Output1(d.output);
    InsertsAt(d, 62042, 3, 20680, 2);
    hide Number, Adapt, Scale, Insert;
  }

  lemma {:induction false} Number2()
    ensures Number(139, BASE, 27) == "5e"
  {
    LastDigit(4, 72, 27, 'e');
    NextDigit(139, 36, 27, 9, '5', 4, "e");
    hide Number;
  }

  lemma Bias2()
    ensures Adapt(139, 4, false) == 24
  {
    hide *;
    AdaptsTo(139, 4, false, 69, 86);
    ScaleGoesOn(86, 0);
  }

  lemma Output2(o: seq<nat>)
    requires o == [0x33, 0x42, 0x5148]
    ensures o[..2] + [0x516B] + o[2..] == [0x33, 0x42, 0x516B, 0x5148]
  {
  }

  lemma {:induction false} Sample2(d: Decoder)
    requires d == Decoder(0x5148, 3, 27, [0x33, 0x42, 0x5148])
    ensures Number(139, BASE, 27) == "5e"
    ensures Insert(d, d.i + 139) ==
            Decoder(0x516B, 3, 24, [0x33, 0x42, 0x516B, 0x5148])
  {
    Number2();
    Bias2();
    Output2(d.output);
    InsertsAt(d, 139, 4, 35, 2);
    hide Number, Adapt, Scale, Insert;
  }

  lemma {:induction false} Number3()
    ensures Number(16683, BASE, 24) == "180e"
  {
    LastDigit(4, 144, 24, 'e');
    NextDigit(66, 108, 24, 26, '0', 4, "e");
    NextDigit(694, 72, 24, 26, '8', 66, "0e");
    NextDigit(16683, 36, 24, 12, '1', 694, "80e");
    hide Number;
  }

  lemma Bias3()
    ensures Adapt(16683, 5, false) == 67
  {
    hide *;
    AdaptsTo(16683, 5, false, 8341, 10009);
    ScaleGoesOn(10009, 0);
    ScaleGoesOn(285, 36);
  }

  lemma Output3(o: seq<nat>)
    requires o == [0x33, 0x42, 0x516B, 0x5148]
    ensures o[..1] + [0x5E74] + o[1..] == [0x33, 0x5E74, 0x42, 0x516B, 0x5148]
  {
  }

  lemma {:induction false} Sample3(d: Decoder)
    requires d == Decoder(0x516B, 3, 24, [0x33, 0x42, 0x516B, 0x5148])
    ensures Number(16683, BASE, 24) == "180e"
    ensures Insert(d, d.i + 16683) ==
            Decoder(0x5E74, 2, 67, [0x33, 0x5E74, 0x42, 0x516B, 0x5148])
  {
    Number3();
    Bias3();
    Output3(d.output);
    InsertsAt(d, 16683, 5, 3337, 1);
    hide Number, Adapt, Scale, Insert;
  }

  lemma {:induction false} Number4()
    ensures Number(34821, BASE, 67) == "575a"
  {
    LastDigit(0, 144, 67, 'a');
    NextDigit(31, 108, 67, 26, '5', 0, "a");
    NextDigit(994, 72, 67, 5, '7', 31, "5a");
    NextDigit(34821, 36, 67, 1, '5', 994, "75a");
    hide Number;
  }

  lemma Bias4()
    ensures Adapt(34821, 6, false) == 82
  {
    hide *;
    AdaptsTo(34821, 6, false, 17410, 20311);
    ScaleGoesOn(20311, 0);
    ScaleGoesOn(580, 36);
    ScaleGoesOn(16, 72);
  }

  lemma Output4(o: seq<nat>)
    requires o == [0x33, 0x5E74, 0x42, 0x516B, 0x5148]
    ensures o[..5] + [0x751F] + o[5..] == [0x33, 0x5E74, 0x42, 0x516B, 0x5148, 0x751F]
  {
  }

  lemma {:induction false} Sample4(d: Decoder)
    requires d == Decoder(0x5E74, 2, 67, [0x33, 0x5E74, 0x42, 0x516B, 0x5148])
    ensures Number(34821, BASE, 67) == "575a"
    ensures Insert(d, d.i + 34821) ==
            Decoder(0x751F, 6, 82, [0x33, 0x5E74, 0x42, 0x516B, 0x5148, 0x751F])
  {
    Number4();
    Bias4();
    Output4(d.output);
    InsertsAt(d, 34821, 6, 5803, 5);
    hide Number, Adapt, Scale, Insert;
  }

  lemma {:induction false} Number5()
    ensures Number(14592, BASE, 82) == "65l"
  {
    LastDigit(11, 108, 82, 'l');
    NextDigit(416, 72, 82, 1, '5', 11, "l");
    NextDigit(14592, 36, 82, 1, '6', 416, "5l");
    hide Number;
  }

  lemma Bias5()
    ensures Adapt(14592, 7, false) == 67
  {
    hide *;
    AdaptsTo(14592, 7, false, 7296, 8338);
    ScaleGoesOn(8338, 0);
    ScaleGoesOn(238, 36);
  }

  lemma Output5(o: seq<nat>)
    requires o == [0x33, 0x5E74, 0x42, 0x516B, 0x5148, 0x751F]
    ensures o[..3] + [0x7D44] + o[3..] == [0x33, 0x5E74, 0x42, 0x7D44, 0x516B, 0x5148, 0x751F]
  {
  }

  lemma {:induction false} Sample5(d: Decoder)
    requires d == Decoder(0x751F, 6, 82, [0x33, 0x5E74, 0x42, 0x516B, 0x5148, 0x751F])
    ensures Number(14592, BASE, 82) == "65l"
    ensures Insert(d, d.i + 14592) ==
            Decoder(0x7D44, 4, 67, [0x33, 0x5E74, 0x42, 0x7D44, 0x516B, 0x5148, 0x751F])
  {
    Number5();
    Bias5();
    Output5(d.output);
    InsertsAt(d, 14592, 7, 2085, 3);
    hide Number, Adapt, Scale, Insert;
  }

  lemma {:induction false} Number6()
    ensures Number(42088, BASE, 67) == "sy2b"
  {
    LastDigit(1, 144, 67, 'b');
    NextDigit(38, 108, 67, 26, '2', 1, "b");
    NextDigit(1202, 72, 67, 5, 'y', 38, "2b");
    NextDigit(42088, 36, 67, 1, 's', 1202, "y2b");
    hide Number;
  }

  lemma Bias6()
    ensures Adapt(42088, 8, false) == 84
  {
    hide *;
    AdaptsTo(42088, 8, false, 21044, 23674);
    ScaleGoesOn(23674, 0);
    ScaleGoesOn(676, 36);
    ScaleGoesOn(19, 72);
  }

  lemma Output6(o: seq<nat>)
    requires o == [0x33, 0x5E74, 0x42, 0x7D44, 0x516B, 0x5148, 0x751F]
    ensures o[..4] + [0x91D1] + o[4..] == [0x33, 0x5E74, 0x42, 0x7D44, 0x91D1, 0x516B, 0x5148, 0x751F]
  {
  }

  lemma {:induction false} Sample6(d: Decoder)
    requires d == Decoder(0x7D44, 4, 67, [0x33, 0x5E74, 0x42, 0x7D44, 0x516B, 0x5148, 0x751F])
    ensures Number(42088, BASE, 67) == "sy2b"
    ensures Insert(d, d.i + 42088) ==
            Decoder(0x91D1, 5, 84, [0x33, 0x5E74, 0x42, 0x7D44, 0x91D1, 0x516B, 0x5148, 0x751F])
  {
    Number6();
    Bias6();
    Output6(d.output);
    InsertsAt(d, 42088, 8, 5261, 4);
    hide Number, Adapt, Scale, Insert;
  }

  lemma {:induction false} SampleRuns()
    ensures Run(Decoder(0x80, 0, 72, [0x33, 0x42]), "" + "ww4c" + "5e" + "180e" + "575a" + "65l" + "sy2b") ==
            Some(Decoder(0x91D1, 5, 84, [0x33, 0x5E74, 0x42, 0x7D44, 0x91D1, 0x516B, 0x5148, 0x751F]))
  {
    var d0 := Decoder(0x80, 0, 72, [0x33, 0x42]);
    var d1 := Decoder(0x5148, 3, 27, [0x33, 0x42, 0x5148]);
    var d2 := Decoder(0x516B, 3, 24, [0x33, 0x42, 0x516B, 0x5148]);
    var d3 := Decoder(0x5E74, 2, 67, [0x33, 0x5E74, 0x42, 0x516B, 0x5148]);
    var d4 := Decoder(0x751F, 6, 82, [0x33, 0x5E74, 0x42, 0x516B, 0x5148, 0x751F]);
    var d5 := Decoder(0x7D44, 4, 67, [0x33, 0x5E74, 0x42, 0x7D44, 0x516B, 0x5148, 0x751F]);
    var d6 := Decoder(0x91D1, 5, 84, [0x33, 0x5E74, 0x42, 0x7D44, 0x91D1, 0x516B, 0x5148, 0x751F]);
    Sample1(d0);
    Sample2(d1);
    Sample3(d2);
    Sample4(d3);
    Sample5(d4);
    Sample6(d5);
    assert Run(d0, "") == Some(d0);
    hide *;
    var t0 := "";
    var t1 := t0 + "ww4c";
    ReadsOn(d0, t0, d0, "ww4c", 62042, d1);
    var t2 := t1 + "5e";
    ReadsOn(d0, t1, d1, "5e", 139, d2);
    var t3 := t2 + "180e";
    ReadsOn(d0, t2, d2, "180e", 16683, d3);
    var t4 := t3 + "575a";
    ReadsOn(d0, t3, d3, "575a", 34821, d4);
    var t5 := t4 + "65l";
    ReadsOn(d0, t4, d4, "65l", 14592, d5);
    var t6 := t5 + "sy2b";
    ReadsOn(d0, t5, d5, "sy2b", 42088, d6);
  }

  lemma SampleText()
    ensures "" + "ww4c" + "5e" + "180e" + "575a" + "65l" + "sy2b" == "ww4c5e180e575a65lsy2b"
  {
  }

  lemma SampleBasic()
    ensures Points("3B") == [0x33, 0x42] && "3B" != "" &&
            "3B" + "-" + "ww4c5e180e575a65lsy2b" == "3B-ww4c5e180e575a65lsy2b"
  {
  }

  /** The text decodes to U+0033 U+5E74 U+0042 U+7D44 U+91D1 U+516B U+5148 U+751F. */
  lemma {:induction false} SampleDecodes()
    ensures Decode("3B-ww4c5e180e575a65lsy2b") == Some([0x33, 0x5E74, 0x42, 0x7D44, 0x91D1, 0x516B, 0x5148, 0x751F])
  {
    assert INITIAL_N == 0x80 && INITIAL_BIAS == 72;
    hide *;
    SampleRuns();
    SampleText();
    SampleBasic();
    TextDecodes("3B", "ww4c5e180e575a65lsy2b",
                Decoder(0x91D1, 5, 84, [0x33, 0x5E74, 0x42, 0x7D44, 0x91D1, 0x516B, 0x5148, 0x751F]));
  }
}
