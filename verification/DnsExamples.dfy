/** Inputs for which the writer of mdns.h does not do what is expected of it, given to the methods that model it. */
module DnsExamples {
  import opened Bytes
  import opened DnsNames
  import opened DnsSpelling
  import opened DnsNameWriter
  import opened DnsCompression
  import opened DnsSearch
  import opened DnsWriter
  import opened DnsRecords
  import opened DnsMessage
  import opened DnsRoundTrip
  import opened DnsNameList
  import opened DnsTwoNames
  import opened DnsTxt

  const LABEL_A: Label := [97]
  const LABEL_B: Label := [98]
  const LABEL_C: Label := [99]

  /** The names a.b.c, a.b and a.a. */
  const NAME_ABC: seq<byte> := [97, 46, 98, 46, 99]
  const NAME_AB: seq<byte> := [97, 46, 98]
  const NAME_AA: seq<byte> := [97, 46, 97]

  lemma OneLabel(c: byte)
    requires c != DOT
    ensures Labels([c]) == [[c]]
  {
    assert DotAt([c], 1) == 1 && DotAt([c], 0) == 1;
    assert [c][..1] == [c];
  }

  lemma FirstLabel(c: byte, rest: seq<byte>)
    requires c != DOT && rest != []
    ensures Labels([c, DOT] + rest) == [[c]] + Labels(rest)
  {
    var s := [c, DOT] + rest;
    assert DotAt(s, 1) == 1 && DotAt(s, 0) == 1;
    assert s[..1] == [c] && s[2..] == rest;
  }

  lemma NamesHaveLabels()
    ensures NameLabels(NAME_ABC) == [LABEL_A, LABEL_B, LABEL_C]
    ensures NameLabels(NAME_AB) == [LABEL_A, LABEL_B]
    ensures NameLabels(NAME_AA) == [LABEL_A, LABEL_A]
  {
    hide Labels;
    OneLabel(97);
    OneLabel(98);
    OneLabel(99);
    FirstLabel(98, [99]);
    FirstLabel(97, [98, 46, 99]);
    FirstLabel(97, [98]);
    FirstLabel(97, [97]);
    assert [97, DOT] + [98, 46, 99] == NAME_ABC && [98, DOT] + [99] == [98, 46, 99];
    assert [97, DOT] + [98] == NAME_AB && [97, DOT] + [97] == NAME_AA;
  }

  lemma DottedSizes()
    ensures |Dotted([LABEL_A, LABEL_B, LABEL_C])| == 6 && |Dotted([LABEL_A, LABEL_B])| == 4 && |Dotted([LABEL_A, LABEL_A])| == 4
  {
    var none: seq<Label> := [];
    assert Dotted(none) == [];
    forall l: Label, rest: seq<Label> ensures |Dotted([l] + rest)| == |l| + 1 + |Dotted(rest)| {
      assert ([l] + rest)[1..] == rest;
    }
    assert [LABEL_A, LABEL_B, LABEL_C] == [LABEL_A] + ([LABEL_B] + ([LABEL_C] + none));
    assert [LABEL_A, LABEL_B] == [LABEL_A] + ([LABEL_B] + none) && [LABEL_A, LABEL_A] == [LABEL_A] + ([LABEL_A] + none);
  }

  /** Written after a.b.c, the name a.b is taken for the start of it and reads as a.b.c. */
  method PrefixMistaken() returns (b: seq<byte>, at: nat)
    ensures Reads(b, 0, [LABEL_A, LABEL_B, LABEL_C])
    ensures Reads(b, at, [LABEL_A, LABEL_B, LABEL_C]) && !Reads(b, at, [LABEL_A, LABEL_B])
  {
    hide NameLabels, Writable, Circular, Reads, Outcome, Dotted, ListRoom;
    ghost var abc: seq<Label>, ab: seq<Label> := [LABEL_A, LABEL_B, LABEL_C], [LABEL_A, LABEL_B];
    NamesHaveLabels();
    DottedSizes();
    ShortLabels(abc);
    ShortLabels(ab);
    DistinctNotCircular(abc);
    DistinctNotCircular(ab);
    var buf := new byte[64];
    var names := [NAME_ABC, NAME_AB];
    var places, end := WriteList(buf, names);
    assert LabelsOfAll(names) == [abc, ab];
    AbRoom(abc, ab);
    AbOutcome(abc, ab);
    b, at := buf[..], places[1];
  }

  lemma AbRoom(abc: seq<Label>, ab: seq<Label>)
    requires |Dotted(abc)| == 6 && |Dotted(ab)| == 4
    ensures ListRoom([abc, ab][..1]) == 7 && ListRoom([abc, ab][..2]) == 12
  {
    hide Dotted;
    assert [abc, ab][..1] == [abc] && [abc, ab][..2] == [abc, ab] && [abc][..0] == [];
  }

  /** The first text on the shelf is a.b.c, and a.b starts it. */
  lemma AbOutcome(abc: seq<Label>, ab: seq<Label>)
    requires abc == [LABEL_A, LABEL_B, LABEL_C] && ab == [LABEL_A, LABEL_B]
    ensures Outcome([abc, ab], 0) == abc == Outcome([abc, ab], 1)
  {
    hide Shelved, ShelfOf, EndingOf;
    assert [abc, ab][..0] == [] && [abc, ab][..1] == [abc];
    NoShelf();
    FirstOutcome(abc);
    var f := ShelfOf([abc]);
    assert abc[0..] == abc && ab[0..] == ab && ab == abc[..2];
    EndingStep(f, ab, 0);
    assert Taken(f.slots, ab) == Some(abc);
  }

  lemma ShortLabels(labels: seq<Label>)
    requires forall i :: 0 <= i < |labels| ==> |labels[i]| == 1
    ensures Writable(labels)
  {
  }

  /** The name a.a ends in a pointer to its own first label and cannot be read. */
  method SelfPointer() returns (b: seq<byte>)
    ensures forall n: nat :: Walk(b, 0, n) == None
  {
    hide NameLabels, Writable, Circular, Search, Stand, Spells, Placed, Entered, NameEnd, Reads, Walk, Clash, TableOk, EndsThere, Dotted, Chain;
    ghost var aa: seq<Label> := [LABEL_A, LABEL_A];
    NamesHaveLabels();
    DottedSizes();
    ShortLabels(aa);
    var buf := new byte[64];
    var w := new Writer(buf);
    ghost var spelled, hit;
    var r;
    AaFindsItself(buf[..]);
    r, spelled, hit := w.StringMake(0, NAME_AA, {});
    b := buf[..];
  }

  lemma AaFindsItself(b: seq<byte>)
    requires |b| == 64
    ensures Search(b, NO_POSITIONS, 0, [LABEL_A, LABEL_A], 0) == Some(Hit(1, 0))
  {
    hide Stand, Chain, Search, Pos, NextSub;
    var aa: seq<Label> := [LABEL_A, LABEL_A];
    SearchStep(b, NO_POSITIONS, 0, aa, 0);
    NoneStand(b, 0, aa);
    PosZero(0, aa);
    StandNext(b, 0, aa, 0, 0);
    PosNext(0, aa, 0);
    var b' := WithLabel(b, 0, aa[0]);
    ShortLabels(aa);
    assert aa[1..] == aa[0..1];
    OwnMatches(b', 0, aa, 1, 0, aa[1..]);
    SearchStep(b', Added(NO_POSITIONS, 0), 2, aa, 1);
    assert Found(b', [0], aa[1..]) == Some(0);
  }

  /** A name of 65 different one-letter labels, in 129 bytes. */
  const NAME_65: seq<byte> := Letters(100, 65)

  const LABELS_65: seq<Label> := seq(65, i requires 0 <= i < 65 => [(100 + i) as byte])

  /** n letters from c on, with dots in between. */
  function Letters(c: nat, n: nat): (s: seq<byte>)
    requires 1 <= n && DOT as nat < c && c + n <= 256
    ensures |s| == 2 * n - 1
    decreases n
  {
    [c as byte] + if n == 1 then [] else [DOT] + Letters(c + 1, n - 1)
  }

  lemma {:induction false} LettersLabels(c: nat, n: nat)
    requires 1 <= n && DOT as nat < c && c + n <= 256
    ensures |Labels(Letters(c, n))| == n && forall i :: 0 <= i < n ==> Labels(Letters(c, n))[i] == [(c + i) as byte]
    ensures Letters(c, n)[2 * n - 2] != DOT
    decreases n
  {
    hide Labels;
    if n == 1 {
      OneLabel(c as byte);
      assert Letters(c, n) == [c as byte];
    } else {
      var rest := Letters(c + 1, n - 1);
      LettersLabels(c + 1, n - 1);
      FirstLabel(c as byte, rest);
      assert Letters(c, n) == [c as byte, DOT] + rest;
      assert Letters(c, n)[2 * n - 2] == rest[2 * (n - 1) - 2];
    }
  }

  lemma {:induction false} ShortDotted(labels: seq<Label>)
    requires forall i :: 0 <= i < |labels| ==> |labels[i]| == 1
    ensures |Dotted(labels)| == 2 * |labels|
  {
    if labels != [] { ShortDotted(labels[1..]); }
  }

  lemma ManyLabels()
    ensures NameLabels(NAME_65) == LABELS_65 && Writable(LABELS_65) && !Circular(LABELS_65)
    ensures |LABELS_65| == 65 && |Dotted(LABELS_65)| == 130
  {
    hide Labels, Letters, Circular, Dotted;
    ShortDotted(LABELS_65);
    LettersLabels(100, 65);
    assert Labels(Letters(100, 65)) == LABELS_65;
    forall i, j | 0 <= i < j < 65 ensures LABELS_65[i] != LABELS_65[j] {
      assert LABELS_65[i][0] as nat == 100 + i && LABELS_65[j][0] as nat == 100 + j;
    }
    DistinctNotCircular(LABELS_65);
  }

  /** A name of 65 labels is written, from an empty table and with room to spare, and no reader finds it. */
  method TooManyLabels() returns (b: seq<byte>)
    ensures |b| == 2048 && NameAt(b, 0) == None
  {
    hide NameLabels, Writable, Circular, Reads, Outcome, Dotted, ListRoom, NameAt, Letters;
    ManyLabels();
    var buf := new byte[2048];
    var names := [NAME_65];
    var places, end := WriteList(buf, names);
    assert LabelsOfAll(names) == [LABELS_65];
    OneRoom(LABELS_65);
    OneOutcome(LABELS_65);
    b := buf[..];
    assert |places| == 1 && places[0] == 0;
    ghost var outcome := Outcome([LABELS_65], 0);
    assert |outcome| > MAX_SUBSTRINGS && forall labels :: Reads(b, places[0], labels) ==> labels == outcome && |labels| <= MAX_SUBSTRINGS;
    NothingReads(b, 0);
  }

  lemma OneRoom(labels: seq<Label>)
    ensures ListRoom([labels][..1]) == |Dotted(labels)| + 1
  {
    hide Dotted;
    assert [labels][..1] == [labels] && [labels][..0] == [];
  }

  /** The first name is always written in full. */
  lemma OneOutcome(labels: seq<Label>)
    requires !Circular(labels)
    ensures labels <= Outcome([labels], 0)
  {
    hide SpelledAs;
  }

  lemma NothingReads(b: seq<byte>, at: nat)
    requires forall labels :: !Reads(b, at, labels)
    ensures NameAt(b, at) == None
  {
    hide NameAt;
    if NameAt(b, at) != None { IsRead(b, at); }
  }

  lemma IsRead(b: seq<byte>, at: nat)
    requires NameAt(b, at).Some?
    ensures Reads(b, at, NameAt(b, at).value.labels)
  {
  }

  /** A repeated label alone does no harm: a.b.a.c cannot find itself. */
  lemma RepeatedLabelIsFine()
    ensures !Circular([LABEL_A, LABEL_B, LABEL_A, LABEL_C])
  {
    var v: seq<Label> := [LABEL_A, LABEL_B, LABEL_A, LABEL_C];
    forall i: nat, j: nat | j < i < |v| ensures !Repeats(v, j, i) {
      var x, y := v[i..], v[j..i];
      assert x[0] == v[i] && y[0] == v[j];
      if i == 2 && j == 0 { assert x[1] == LABEL_C && y[1] == LABEL_B; }
    }
  }

  // ----- TXT records

  /** The answer TXT k=v for the name a. */
  const TXT_ANSWER: Record := Record([97], 1, 60, Data.Txt([107], [118]))

  /** Built from a TXT answer alone, a message is a bare header that announces one answer. */
  method TxtAnswerLost() returns (b: seq<byte>)
    ensures |b| == 12 && Host16(b, 6) == 1 && ParsedAt(b, 12, 1).0 == []
  {
    hide Compatible, ValidRecord, ValidRecords, MessageRoom, Message, Answer, Section, ParsedAt;
    var buf := new byte[64];
    TxtAnswerFits();
    ghost var mark;
    var size;
    size, mark := AnswerMulticast(buf, TXT_ANSWER, [], [], 1, 60, {[LABEL_A]});
    b := buf[..size.value];
    BareHeader(b, mark);
  }

  lemma BareHeader(b: seq<byte>, mark: seq<bool>)
    requires |mark| == |b|
    requires var s := Section([], 1, 60); Message(b, mark, Answer(TXT_ANSWER, 1, 60), s, s, |s| % 0x10000, |s| % 0x10000)
    ensures |b| == 12 && Host16(b, 6) == 1 && ParsedAt(b, 12, 1).0 == []
  {
    hide Header, Host16, RecordAt;
    assert Section([], 1, 60) == [] && Answer(TXT_ANSWER, 1, 60) + [] + [] == [];
    HeaderReads(b, 1, 0, 0);
  }

  lemma TxtAnswerFits()
    ensures Compatible({[LABEL_A]}) && ValidRecord(TXT_ANSWER, {[LABEL_A]}) && ValidRecords([], {[LABEL_A]})
    ensures MessageRoom(TXT_ANSWER, [], []) == 12
  {
    var v: seq<Label> := [LABEL_A];
    OneLabel(97);
    DistinctNotCircular(v);
    forall u | u in {v} ensures Distinct(u) && u[|u| - 1] == LABEL_A {
    }
    SameEndCompatible({v}, LABEL_A);
  }

  /** A pair with an empty key is written and not read. */
  lemma EmptyKeyLost()
    ensures var d := Data.Txt([], [118]); var b := TxtString(d); Pairs(b, 0, |b|, 16) == [] && Sent([Record([97], 1, 60, d)]) != []
  {
    var d := Data.Txt([], [118]);
    var b := TxtString(d);
    assert b == [2, 61, 118];
    assert b[1..3] == [61, 118];
    assert Separator([61, 118], 0) == 0;
  }
}
