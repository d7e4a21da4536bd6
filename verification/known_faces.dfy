/** The gallery of known faces and how loading image files extends it.

    The gallery is two parallel sequences: face encodings and the names that
    go with them. Loading visits the enumerated image files in order. A file
    that cannot be decoded is skipped; so is an image in which no face is
    found; any other image contributes its first encoding, named after the
    file. Encodings are opaque values of type `Enc`.
 */
module KnownFaces {
  import opened PathNames

  /** What reading one image file yields: nothing usable, or the encodings of
      the faces found in it (possibly none). */
  datatype ReadOutcome<Enc(==)> = DecodeFailed | Decoded(encodings: seq<Enc>)

  /** An enumerated image file: its path and what reading it yields. */
  datatype ImageFile<Enc(==)> = ImageFile(path: string, read: ReadOutcome<Enc>)

  /** A file contributes to the gallery when it decodes and shows a face. */
  predicate Accepted<Enc(==)>(f: ImageFile<Enc>) {
    f.read.Decoded? && |f.read.encodings| > 0
  }

  datatype Gallery<Enc(==)> = Gallery(encodings: seq<Enc>, names: seq<string>) {
    /** Every encoding has exactly one name beside it. */
    predicate Valid() {
      |encodings| == |names|
    }

    /** The number of entries. */
    function Size(): nat {
      |names|
    }

    /** `this` is `g` with possibly more entries after the existing ones. */
    predicate Extends(g: Gallery<Enc>) {
      && |g.encodings| <= |encodings|
      && (forall k :: 0 <= k < |g.encodings| ==> encodings[k] == g.encodings[k])
      && |g.names| <= |names|
      && (forall k :: 0 <= k < |g.names| ==> names[k] == g.names[k])
    }
  }

  /** The gallery after one enumerated file has been considered. */
  function AddFile<Enc(==)>(g: Gallery<Enc>, f: ImageFile<Enc>): (r: Gallery<Enc>)
    ensures g.Valid() ==> r.Valid()
    ensures r.Extends(g)
    ensures |r.names| == |g.names| + (if Accepted(f) then 1 else 0)
    ensures |r.encodings| == |g.encodings| + (if Accepted(f) then 1 else 0)
    ensures Accepted(f) ==> r.encodings[|g.encodings|] == f.read.encodings[0]
    ensures Accepted(f) ==> r.names[|g.names|] == Label(f.path)
  {
    match f.read
    case DecodeFailed => g
    case Decoded(encs) =>
      if |encs| == 0 then g
      else Gallery(g.encodings + [encs[0]], g.names + [Label(f.path)])
  }

  /** The gallery after every file of `files` has been considered, in order. */
  function Load<Enc(==)>(g: Gallery<Enc>, files: seq<ImageFile<Enc>>): (r: Gallery<Enc>)
    ensures g.Valid() ==> r.Valid()
    ensures |g.names| <= |r.names| <= |g.names| + |files|
    decreases |files|
  {
    if |files| == 0 then g
    else Load(AddFile(g, files[0]), files[1..])
  }

  /** The encoding a contributing file adds: that of the first face found. */
  function FirstEncoding<Enc(==)>(f: ImageFile<Enc>): Enc
    requires Accepted(f)
  {
    f.read.encodings[0]
  }

  /** The files that contribute an entry, in enumeration order. */
  function AcceptedFiles<Enc(==)>(files: seq<ImageFile<Enc>>): (r: seq<ImageFile<Enc>>)
    ensures |r| <= |files|
    ensures forall k :: 0 <= k < |r| ==> Accepted(r[k]) && r[k] in files
    ensures forall k :: 0 <= k < |files| && Accepted(files[k]) ==> files[k] in r
  {
    if |files| == 0 then []
    else if Accepted(files[0]) then [files[0]] + AcceptedFiles(files[1..])
    else AcceptedFiles(files[1..])
  }

  /** The entries a sequence of accepted files contributes under the naming
      rule `name`, in order: each file's first encoding, and the name of its
      path. */
  function EntriesNamed<Enc(==)>(acc: seq<ImageFile<Enc>>, name: string -> string): (r: Gallery<Enc>)
    requires forall k :: 0 <= k < |acc| ==> Accepted(acc[k])
    ensures r.Valid() && r.Size() == |acc|
  {
    if |acc| == 0 then Gallery([], [])
    else
      var rest := EntriesNamed(acc[1..], name);
      Gallery([FirstEncoding(acc[0])] + rest.encodings, [name(acc[0].path)] + rest.names)
  }

  /** The entries a sequence of accepted files contributes, in order: each
      file's first encoding, and its label. */
  function EntriesOf<Enc(==)>(acc: seq<ImageFile<Enc>>): (r: Gallery<Enc>)
    requires forall k :: 0 <= k < |acc| ==> Accepted(acc[k])
    ensures r.Valid() && r.Size() == |acc|
  {
    EntriesNamed(acc, Label)
  }

  /** Entry k of the contributed entries is the k-th accepted file's first
      encoding under that file's label. */
  lemma EntriesOfPointwise<Enc>(acc: seq<ImageFile<Enc>>)
    requires forall k :: 0 <= k < |acc| ==> Accepted(acc[k])
    ensures forall k :: 0 <= k < |acc| ==> EntriesOf(acc).encodings[k] == FirstEncoding(acc[k])
    ensures forall k :: 0 <= k < |acc| ==> EntriesOf(acc).names[k] == Label(acc[k].path)
  {
    forall k | 0 <= k < |acc|
      ensures EntriesOf(acc).encodings[k] == FirstEncoding(acc[k])
      ensures EntriesOf(acc).names[k] == Label(acc[k].path)
    {
      EntriesNamedAt(acc, Label, k);
    }
  }

  /** Helper: entry k of the entries under any naming rule, by induction
      on k. */
  lemma {:induction false} EntriesNamedAt<Enc>(acc: seq<ImageFile<Enc>>, name: string -> string, k: nat)
    requires forall j :: 0 <= j < |acc| ==> Accepted(acc[j])
    requires k < |acc|
    ensures EntriesNamed(acc, name).encodings[k] == FirstEncoding(acc[k])
    ensures EntriesNamed(acc, name).names[k] == name(acc[k].path)
    decreases k
  {
    if k > 0 {
      var tail := acc[1..];
      var rest := EntriesNamed(tail, name);
      EntriesNamedAt(tail, name, k - 1);
      assert tail[k - 1] == acc[k];
      ConsAt(FirstEncoding(acc[0]), rest.encodings, k);
      ConsAt(name(acc[0].path), rest.names, k);
    }
  }

  /** Helper: past the head, a list with one element put in front is the
      original list one position earlier. */
  lemma ConsAt<T>(x: T, s: seq<T>, k: nat)
    requires 0 < k <= |s|
    ensures ([x] + s)[k] == s[k - 1]
  {
  }

  /** Helper: concatenation is associative. */
  lemma AppendAssociates<T>(a: seq<T>, b: seq<T>, c: seq<T>)
    ensures (a + b) + c == a + (b + c)
  {
  }

  /** Loading appends to the gallery exactly the entries of the accepted
      files, in enumeration order: decode failures and faceless images leave
      no trace, and every other file adds its first encoding and its label. */
  lemma {:induction false} LoadAppendsAcceptedEntries<Enc>(g: Gallery<Enc>, files: seq<ImageFile<Enc>>)
    ensures var e := EntriesOf(AcceptedFiles(files));
      Load(g, files) == Gallery(g.encodings + e.encodings, g.names + e.names)
    decreases |files|
  {
    var all := AcceptedFiles(files);
    var e := EntriesOf(all);
    if |files| > 0 {
      var g' := AddFile(g, files[0]);
      var tail := AcceptedFiles(files[1..]);
      var rest := EntriesOf(tail);
      LoadAppendsAcceptedEntries(g', files[1..]);
      assert Load(g, files) == Gallery(g'.encodings + rest.encodings, g'.names + rest.names);
      if Accepted(files[0]) {
        assert all == [files[0]] + tail;
        assert all[1..] == tail;
        AppendAssociates(g.encodings, [files[0].read.encodings[0]], rest.encodings);
        AppendAssociates(g.names, [Label(files[0].path)], rest.names);
      } else {
        assert all == tail;
        assert e == rest;
        assert g' == g;
        assert Load(g, files) == Gallery(g.encodings + e.encodings, g.names + e.names);
      }
    } else {
      assert e.encodings == [] && e.names == [];
      assert g.encodings + e.encodings == g.encodings;
      assert g.names + e.names == g.names;
    }
  }

  /** Loading never removes or reorders existing entries: the old gallery
      is a prefix of the new one. */
  lemma LoadExtends<Enc>(g: Gallery<Enc>, files: seq<ImageFile<Enc>>)
    ensures Load(g, files).Extends(g)
  {
    LoadAppendsAcceptedEntries(g, files);
  }

  /** The number of new entries is the number of accepted files. */
  lemma LoadCountsAcceptedFiles<Enc>(g: Gallery<Enc>, files: seq<ImageFile<Enc>>)
    ensures Load(g, files).Size() == g.Size() + |AcceptedFiles(files)|
  {
    LoadAppendsAcceptedEntries(g, files);
  }

  /** Loading a single file is considering that file. */
  lemma LoadSingle<Enc>(g: Gallery<Enc>, f: ImageFile<Enc>)
    ensures Load(g, [f]) == AddFile(g, f)
  {
    assert [f][1..] == [];
  }

  /** Loading a file followed by more files is considering that file and
      then loading the rest. */
  lemma LoadCons<Enc>(g: Gallery<Enc>, f: ImageFile<Enc>, rest: seq<ImageFile<Enc>>)
    ensures Load(g, [f] + rest) == Load(AddFile(g, f), rest)
  {
    assert ([f] + rest)[0] == f;
    assert ([f] + rest)[1..] == rest;
  }

  /** A file that fails to decode or shows no face is skipped: loading it
      followed by more files is loading the rest. */
  lemma LoadSkipsRejected<Enc>(g: Gallery<Enc>, f: ImageFile<Enc>, rest: seq<ImageFile<Enc>>)
    requires !Accepted(f)
    ensures Load(g, [f] + rest) == Load(g, rest)
  {
    LoadCons(g, f, rest);
  }

  /** Loading one file that decodes and shows a face appends its first
      encoding and its label. */
  lemma LoadAccepted<Enc>(g: Gallery<Enc>, f: ImageFile<Enc>)
    requires Accepted(f)
    ensures Load(g, [f]) == Gallery(g.encodings + [FirstEncoding(f)], g.names + [Label(f.path)])
  {
    LoadSingle(g, f);
  }

  /** Loading two batches one after the other is loading them together. */
  lemma {:induction false} LoadConcatenation<Enc>(g: Gallery<Enc>, a: seq<ImageFile<Enc>>, b: seq<ImageFile<Enc>>)
    ensures Load(g, a + b) == Load(Load(g, a), b)
    decreases |a|
  {
    if |a| > 0 {
      assert (a + b)[0] == a[0];
      assert (a + b)[1..] == a[1..] + b;
      LoadConcatenation(AddFile(g, a[0]), a[1..], b);
    } else {
      assert a + b == b;
    }
  }

  /** A file list of nothing but unreadable or faceless images leaves the
      gallery as it was. */
  lemma {:induction false} LoadOfRejectedFilesIsIdentity<Enc>(g: Gallery<Enc>, files: seq<ImageFile<Enc>>)
    requires forall k :: 0 <= k < |files| ==> !Accepted(files[k])
    ensures Load(g, files) == g
    decreases |files|
  {
    if |files| > 0 {
      LoadOfRejectedFilesIsIdentity(g, files[1..]);
    }
  }
}
