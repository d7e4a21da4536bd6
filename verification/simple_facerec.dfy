/** The recogniser object: a gallery of known faces plus the frame resize
    factor, with its two operations, loading gallery images and labelling
    the faces of a frame.

    The face library is not modelled. What it computes enters as data: per
    image file, the outcome of decoding it and encoding its faces; per frame,
    the boxes found in the shrunken frame and, per box, the distance to and
    the match verdict for every gallery entry.
 */
module SimpleFacerec {
  import opened PathNames
  import opened KnownFaces
  import opened FaceMatch
  import opened BoxScaling

  datatype Facerec<Enc(==)> = Facerec(gallery: Gallery<Enc>, frameResizing: Ratio) {
    /** The state every recogniser keeps: parallel gallery sequences and a
        positive resize factor. */
    predicate Valid() {
      gallery.Valid() && frameResizing.Valid()
    }
  }

  /** A fresh recogniser: an empty gallery and frames shrunk to a quarter. */
  function Init<Enc(==)>(): (r: Facerec<Enc>)
    ensures r.Valid()
    ensures r.gallery.Size() == 0 && |r.gallery.encodings| == 0
    ensures forall c: nat :: RescaleCoord(c, r.frameResizing) == 4 * c
  {
    var r := Facerec(Gallery([], []), DefaultResizing);
    assert forall c: nat :: RescaleCoord(c, r.frameResizing) == 4 * c by {
      forall c: nat ensures RescaleCoord(c, r.frameResizing) == 4 * c {
        RescaleByReciprocalIsExact(c, 4);
      }
    }
    r
  }

  /** Considers the enumerated image files one by one, in order, and
      appends an entry for each that decodes and shows a face. */
  method LoadEncodingImages<Enc(==)>(fr: Facerec<Enc>, files: seq<ImageFile<Enc>>)
    returns (r: Facerec<Enc>)
    ensures r.gallery == Load(fr.gallery, files)
    ensures r.frameResizing == fr.frameResizing
    ensures fr.Valid() ==> r.Valid()
    ensures r.gallery.Size() == fr.gallery.Size() + |AcceptedFiles(files)|
  {
    var encodings := fr.gallery.encodings;
    var names := fr.gallery.names;
    var i := 0;
    while i < |files|
      invariant 0 <= i <= |files|
      invariant Load(Gallery(encodings, names), files[i..]) == Load(fr.gallery, files)
    {
      var file := files[i];
      assert files[i..][0] == file && files[i..][1..] == files[i + 1..];
      i := i + 1;
      if file.read.DecodeFailed? {
        continue;
      }
      var filename := Label(file.path);
      var encs := file.read.encodings;
      if |encs| == 0 {
        continue;
      }
      encodings := encodings + [encs[0]];
      names := names + [filename];
    }
    r := Facerec(Gallery(encodings, names), fr.frameResizing);
    LoadCountsAcceptedFiles(fr.gallery, files);
  }

  /** Labels the faces of one frame and maps their boxes back to the
      original frame. `locations` are the boxes found in the shrunken frame
      and `scores` holds, per box in the same order, its distances to and
      match verdicts for the gallery entries. */
  method DetectKnownFaces<Enc(==)>(fr: Facerec<Enc>, locations: seq<Box>, scores: seq<FaceScores>)
    returns (boxes: seq<Box>, faceNames: seq<string>)
    requires fr.Valid()
    requires |scores| == |locations|
    requires forall k :: 0 <= k < |scores| ==>
               |scores[k].distances| == |fr.gallery.names| && |scores[k].matches| == |fr.gallery.names|
    ensures |boxes| == |locations| && |faceNames| == |locations|
    ensures forall k :: 0 <= k < |boxes| ==> boxes[k] == RescaleBox(locations[k], fr.frameResizing)
    ensures forall k :: 0 <= k < |scores| ==>
              faceNames[k] == SelectLabel(fr.gallery.names, scores[k])
    ensures forall k :: 0 <= k < |faceNames| ==>
              faceNames[k] == Unknown || faceNames[k] in fr.gallery.names
    ensures fr.gallery.Size() == 0 ==> forall k :: 0 <= k < |faceNames| ==> faceNames[k] == Unknown
  {
    faceNames := [];
    var i := 0;
    while i < |scores|
      invariant 0 <= i <= |scores|
      invariant |faceNames| == i
      invariant forall k :: 0 <= k < i ==> faceNames[k] == SelectLabel(fr.gallery.names, scores[k])
    {
      var name := SelectLabel(fr.gallery.names, scores[i]);
      faceNames := faceNames + [name];
      i := i + 1;
    }
    boxes := RescaleLocations(locations, fr.frameResizing);
    forall k | 0 <= k < |faceNames|
      ensures faceNames[k] == Unknown || faceNames[k] in fr.gallery.names
      ensures fr.gallery.Size() == 0 ==> faceNames[k] == Unknown
    {
      var s := scores[k];
      assert faceNames[k] == SelectLabel(fr.gallery.names, s);
    }
  }
}
