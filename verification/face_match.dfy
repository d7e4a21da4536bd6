/** Choosing the label of one detected face.

    For each detected face the recogniser receives, per gallery entry, a
    distance and a match flag. It takes the nearest entry, ties going to the
    earliest, and names the face after that entry only if that entry's own
    flag is set; in every other case, and always against an empty gallery,
    the face is "Unknown".
 */
module FaceMatch {

  const Unknown: string := "Unknown"

  /** `i` is the first position of the smallest distance, which is how
      `argmin` breaks ties. */
  ghost predicate IsFirstMin(d: seq<real>, i: int) {
    && 0 <= i < |d|
    && (forall j :: 0 <= j < |d| ==> d[i] <= d[j])
    && (forall j :: 0 <= j < i ==> d[i] < d[j])
  }

  /** The first position of the smallest distance, by a scan from the left. */
  function ArgMin(d: seq<real>): (i: nat)
    requires |d| > 0
    ensures IsFirstMin(d, i)
  {
    if |d| == 1 then 0
    else
      var k := ArgMin(d[..|d| - 1]);
      if d[|d| - 1] < d[k] then |d| - 1 else k
  }

  /** The per-face scores the recogniser obtains from the face library:
      the distance to, and the match verdict for, every gallery entry. */
  datatype FaceScores = FaceScores(distances: seq<real>, matches: seq<bool>)

  /** The label of one face against a gallery whose names are `names`.
      Both score sequences hold one value per gallery entry. */
  function SelectLabel(names: seq<string>, s: FaceScores): (r: string)
    requires |s.distances| == |names| && |s.matches| == |names|
    ensures |names| == 0 ==> r == Unknown
    ensures forall i :: IsFirstMin(s.distances, i) ==>
              r == (if s.matches[i] then names[i] else Unknown)
    ensures r == Unknown || r in names
  {
    if |s.distances| > 0 then
      var best := ArgMin(s.distances);
      if s.matches[best] then names[best] else Unknown
    else
      Unknown
  }

  /** When the flags come from a tolerance on the same distances, as the
      face library's comparison makes them, the two-step test reduces to
      "is any entry within tolerance": a face is named after its nearest
      entry exactly when some entry is close enough, and is "Unknown"
      exactly when none is. */
  lemma ThresholdedSelection(names: seq<string>, d: seq<real>, m: seq<bool>, tolerance: real)
    requires |d| == |names| && |m| == |names|
    requires forall i :: 0 <= i < |d| ==> (m[i] <==> d[i] <= tolerance)
    ensures var r := SelectLabel(names, FaceScores(d, m));
      && ((exists j :: 0 <= j < |d| && d[j] <= tolerance) ==> r == names[ArgMin(d)])
      && ((forall j :: 0 <= j < |d| ==> tolerance < d[j]) ==> r == Unknown)
  {
  }
}
