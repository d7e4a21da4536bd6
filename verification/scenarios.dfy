/** Worked examples: a small gallery built from four files, three faces of
    a frame labelled against it, and one box mapped back to the full frame. */
module Scenarios {
  import opened PathNames
  import opened KnownFaces
  import opened FaceMatch
  import opened BoxScaling

  /** The label of `faces/alice.jpg` is "alice". */
  lemma AliceLabel(p: string)
    requires p == "faces/alice.jpg"
    ensures Label(p) == "alice"
  {
    assert "faces" + [Sep] + "alice" + [ExtSep] + "jpg" == p;
    LabelOfDirStemExt("faces", "alice", "jpg");
  }

  /** The label of `faces/bob.png` is "bob". */
  lemma BobLabel(p: string)
    requires p == "faces/bob.png"
    ensures Label(p) == "bob"
  {
    assert "faces" + [Sep] + "bob" + [ExtSep] + "png" == p;
    LabelOfDirStemExt("faces", "bob", "png");
  }

  /** Loading a file with two faces, an unreadable file, a faceless file
      and a file with one face gives two entries, holding the first face of
      each file that shows one under that file's label. */
  lemma ExampleGalleryShape<Enc>(f0: ImageFile<Enc>, f1: ImageFile<Enc>, f2: ImageFile<Enc>, f3: ImageFile<Enc>,
                                 alice: Enc, other: Enc, bob: Enc)
    requires f0.read == Decoded([alice, other])
    requires f1.read == DecodeFailed
    requires f2.read == Decoded([])
    requires f3.read == Decoded([bob])
    ensures Load(Gallery([], []), [f0, f1, f2, f3])
         == Gallery([alice, bob], [Label(f0.path), Label(f3.path)])
  {
    var g1 := Gallery([alice], [Label(f0.path)]);
    ExampleFirstStep(f0, [f1, f2, f3], alice, other);
    ExampleSkippedFiles(g1, f1, f2, f3);
    ExampleLastFile(f3, alice, bob, Label(f0.path));
  }

  /** Helper: the first file of the example adds its first face. */
  lemma ExampleFirstStep<Enc>(f0: ImageFile<Enc>, rest: seq<ImageFile<Enc>>, alice: Enc, other: Enc)
    requires f0.read == Decoded([alice, other])
    ensures Load(Gallery([], []), [f0] + rest) == Load(Gallery([alice], [Label(f0.path)]), rest)
  {
    var g0: Gallery<Enc> := Gallery([], []);
    LoadCons(g0, f0, rest);
    LoadAccepted(g0, f0);
    LoadSingle(g0, f0);
    assert FirstEncoding(f0) == alice;
    var name := Label(f0.path);
    EmptyThenOne(alice);
    EmptyThenOne(name);
  }

  /** Helper: the unreadable and the faceless file leave the gallery alone. */
  lemma ExampleSkippedFiles<Enc>(g: Gallery<Enc>, f1: ImageFile<Enc>, f2: ImageFile<Enc>, f3: ImageFile<Enc>)
    requires f1.read == DecodeFailed
    requires f2.read == Decoded([])
    ensures Load(g, [f1, f2, f3]) == Load(g, [f3])
  {
    assert [f1, f2, f3] == [f1] + [f2, f3];
    LoadSkipsRejected(g, f1, [f2, f3]);
    assert [f2, f3] == [f2] + [f3];
    LoadSkipsRejected(g, f2, [f3]);
  }

  /** Helper: the last file of the example adds its only face after the
      first entry. */
  lemma ExampleLastFile<Enc>(f3: ImageFile<Enc>, alice: Enc, bob: Enc, aliceName: string)
    requires f3.read == Decoded([bob])
    ensures Load(Gallery([alice], [aliceName]), [f3])
         == Gallery([alice, bob], [aliceName, Label(f3.path)])
  {
    var g1 := Gallery([alice], [aliceName]);
    LoadAccepted(g1, f3);
    assert FirstEncoding(f3) == bob;
    var name := Label(f3.path);
    OneThenOne(alice, bob);
    OneThenOne(aliceName, name);
  }

  /** Helper: the empty list followed by one element. */
  lemma EmptyThenOne<T>(a: T)
    ensures [] + [a] == [a]
  {
  }

  /** Helper: two one-element lists joined. */
  lemma OneThenOne<T>(a: T, b: T)
    ensures [a] + [b] == [a, b]
  {
  }

  /** The same with the file names of the example: `faces/alice.jpg` and
      `faces/bob.png` give the entries "alice" and "bob". */
  lemma ExampleGallery<Enc>(f0: ImageFile<Enc>, f1: ImageFile<Enc>, f2: ImageFile<Enc>, f3: ImageFile<Enc>,
                            alice: Enc, other: Enc, bob: Enc)
    requires f0 == ImageFile("faces/alice.jpg", Decoded([alice, other]))
    requires f1.read == DecodeFailed
    requires f2.read == Decoded([])
    requires f3 == ImageFile("faces/bob.png", Decoded([bob]))
    ensures Load(Gallery([], []), [f0, f1, f2, f3]) == Gallery([alice, bob], ["alice", "bob"])
  {
    ExampleGalleryShape(f0, f1, f2, f3, alice, other, bob);
    AliceLabel(f0.path);
    BobLabel(f3.path);
  }

  /** A face nearest to "alice" and within her match flag is named "alice";
      a face matching nobody is "Unknown"; and a face whose nearest entry
      fails its flag is "Unknown" even though the other entry's flag holds. */
  lemma ExampleLabelling()
    ensures SelectLabel(["alice", "bob"], FaceScores([0.3, 0.8], [true, false])) == "alice"
    ensures SelectLabel(["alice", "bob"], FaceScores([0.9, 0.7], [false, false])) == Unknown
    ensures SelectLabel(["alice", "bob"], FaceScores([0.5, 0.55], [false, true])) == Unknown
  {
    assert IsFirstMin([0.3, 0.8], 0);
    assert IsFirstMin([0.9, 0.7], 1);
    assert IsFirstMin([0.5, 0.55], 0);
  }

  /** A box found at (10, 50, 60, 5) in the quarter-size frame lies at
      (40, 200, 240, 20) in the full frame. */
  lemma ExampleRescale()
    ensures RescaleBox(Box(10, 50, 60, 5), DefaultResizing) == Box(40, 200, 240, 20)
  {
    DefaultRescaleIsTimesFour(Box(10, 50, 60, 5));
  }
}
