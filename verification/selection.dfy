/** What load chooses, stated as filter-then-reduce: keep the partitions whose
    image passes the checksum, in pool order, then fold them with the
    wraparound "newer" test. */
module Selection {
  import opened Header
  import opened Integrity
  import opened Generation

  /** A pool index together with the counter found in its image. */
  datatype Choice = Choice(index: nat, value: uint8)

  /** The choice load falls back on when no image verifies. */
  const Fallback: Choice := Choice(0, 0xFF)

  /** The verified images among the first k, in pool order. */
  function Candidates(images: seq<seq<uint8>>, k: nat, usable: nat, offset: nat): seq<Choice>
    requires k <= |images|
  {
    if k == 0 then []
    else
      var before := Candidates(images, k - 1, usable, offset);
      if CrcValid(images[k - 1], usable, offset)
      then before + [Choice(k - 1, Counter(images[k - 1], offset))]
      else before
  }

  /** Folding the candidates: the first is the initial best, and a later one
      replaces the best only when its counter is newer. */
  function Reduce(c: seq<Choice>): Choice
    requires |c| > 0
  {
    if |c| == 1 then c[0]
    else
      var best := Reduce(c[..|c| - 1]);
      if Newer(c[|c| - 1].value, best.value) then c[|c| - 1] else best
  }

  /** Every candidate is a verified image among the first k, paired with
      its counter, and candidates keep pool order. */
  ghost predicate Sound(c: seq<Choice>, images: seq<seq<uint8>>, k: nat, usable: nat, offset: nat)
    requires k <= |images|
  {
    (forall j :: 0 <= j < |c| ==>
      c[j].index < k && CrcValid(images[c[j].index], usable, offset)
      && c[j].value == Counter(images[c[j].index], offset))
    && (forall i, j :: 0 <= i < j < |c| ==> c[i].index < c[j].index)
  }

  lemma {:induction false} CandidatesSound(images: seq<seq<uint8>>, k: nat, usable: nat, offset: nat)
    requires k <= |images|
    ensures Sound(Candidates(images, k, usable, offset), images, k, usable, offset)
  {
    if k > 0 {
      CandidatesSound(images, k - 1, usable, offset);
      var before := Candidates(images, k - 1, usable, offset);
      if CrcValid(images[k - 1], usable, offset) {
        var c := before + [Choice(k - 1, Counter(images[k - 1], offset))];
        forall j | 0 <= j < |c|
          ensures c[j].index < k && CrcValid(images[c[j].index], usable, offset)
          ensures c[j].value == Counter(images[c[j].index], offset)
        {
          if j < |before| {
            assert c[j] == before[j];
          }
        }
        forall i, j | 0 <= i < j < |c|
          ensures c[i].index < c[j].index
        {
          assert c[i] == before[i];
          if j < |before| {
            assert c[j] == before[j];
          }
        }
        assert Sound(c, images, k, usable, offset);
      } else {
        assert Sound(before, images, k, usable, offset);
      }
    }
  }

  /** The fold returns one of the candidates. */
  lemma {:induction false} ReduceMember(c: seq<Choice>)
    requires |c| > 0
    ensures Reduce(c) in c
  {
    if |c| > 1 {
      ReduceMember(c[..|c| - 1]);
    }
  }

  /** The best choice after scanning the first k images, Fallback while none verified. */
  function Scan(images: seq<seq<uint8>>, k: nat, usable: nat, offset: nat): Choice
    requires k <= |images|
  {
    var c := Candidates(images, k, usable, offset);
    if |c| == 0 then Fallback else Reduce(c)
  }

  /** Scanning one more image: an image that fails the check is skipped, the
      first verified image becomes the best, and a later verified image
      replaces the best only when its counter is newer. */
  lemma ScanStep(images: seq<seq<uint8>>, k: nat, usable: nat, offset: nat)
    requires k < |images|
    ensures var before := Scan(images, k, usable, offset);
            var next := Choice(k, Counter(images[k], offset));
            Scan(images, k + 1, usable, offset) ==
              if !CrcValid(images[k], usable, offset) then before
              else if |Candidates(images, k, usable, offset)| == 0 then next
              else if Newer(next.value, before.value) then next
              else before
    ensures |Candidates(images, k + 1, usable, offset)| ==
              |Candidates(images, k, usable, offset)| + (if CrcValid(images[k], usable, offset) then 1 else 0)
  {
    var c := Candidates(images, k, usable, offset);
    if CrcValid(images[k], usable, offset) && |c| > 0 {
      assert (c + [Choice(k, Counter(images[k], offset))])[..|c|] == c;
    }
  }

  /** The partition load selects, and the counter it adopts. */
  function Select(images: seq<seq<uint8>>, usable: nat, offset: nat): Choice {
    Scan(images, |images|, usable, offset)
  }

  /** Every verified image is among the candidates. */
  lemma {:induction false} CandidatesComplete(images: seq<seq<uint8>>, k: nat, usable: nat, offset: nat, i: nat)
    requires i < k <= |images|
    requires CrcValid(images[i], usable, offset)
    ensures Choice(i, Counter(images[i], offset)) in Candidates(images, k, usable, offset)
  {
    if i < k - 1 {
      CandidatesComplete(images, k - 1, usable, offset, i);
    }
  }

  /** When no image verifies, load keeps partition 0 with counter 0xFF. */
  lemma SelectWithoutValidImage(images: seq<seq<uint8>>, usable: nat, offset: nat)
    requires forall i :: 0 <= i < |images| ==> !CrcValid(images[i], usable, offset)
    ensures Select(images, usable, offset) == Fallback
  {
    NoCandidates(images, |images|, usable, offset);
  }

  /** Without a verified image among the first k there is no candidate. */
  lemma {:induction false} NoCandidates(images: seq<seq<uint8>>, k: nat, usable: nat, offset: nat)
    requires k <= |images|
    requires forall i :: 0 <= i < k ==> !CrcValid(images[i], usable, offset)
    ensures Candidates(images, k, usable, offset) == []
  {
    if k > 0 {
      NoCandidates(images, k - 1, usable, offset);
    }
  }

  /** When some image verifies, load selects a verified image and adopts the
      counter stored in it. */
  lemma SelectIsVerified(images: seq<seq<uint8>>, usable: nat, offset: nat, i: nat)
    requires i < |images| && CrcValid(images[i], usable, offset)
    ensures Select(images, usable, offset).index < |images|
    ensures CrcValid(images[Select(images, usable, offset).index], usable, offset)
    ensures Select(images, usable, offset).value == Counter(images[Select(images, usable, offset).index], offset)
  {
    CandidatesComplete(images, |images|, usable, offset, i);
    CandidatesSound(images, |images|, usable, offset);
    ReduceMember(Candidates(images, |images|, usable, offset));
  }

  /** Whether every candidate's counter lies less than half the clock ahead of `base`. */
  ghost predicate InWindow(c: seq<Choice>, base: uint8) {
    forall j :: 0 <= j < |c| ==> Ahead(base, c[j].value) < 128
  }

  /** In a window the fold picks the newest candidate, and the first of
      equally new ones. */
  lemma {:induction false} ReduceNewest(c: seq<Choice>, base: uint8)
    requires |c| > 0 && InWindow(c, base)
    requires forall i, j :: 0 <= i < j < |c| ==> c[i].index < c[j].index
    ensures forall j :: 0 <= j < |c| ==> Ahead(base, c[j].value) <= Ahead(base, Reduce(c).value)
    ensures forall j :: 0 <= j < |c| && c[j].index < Reduce(c).index ==>
      Ahead(base, c[j].value) < Ahead(base, Reduce(c).value)
  {
    if |c| > 1 {
      var init := c[..|c| - 1];
      var last := c[|c| - 1];
      ReduceNewest(init, base);
      var best := Reduce(init);
      ReduceMember(init);
      assert best in init;
      NewerInWindow(base, last.value, best.value);
      forall j | 0 <= j < |c|
        ensures Ahead(base, c[j].value) <= Ahead(base, Reduce(c).value)
        ensures c[j].index < Reduce(c).index ==> Ahead(base, c[j].value) < Ahead(base, Reduce(c).value)
      {
        if j < |c| - 1 {
          assert c[j] == init[j];
        }
      }
    }
  }

  /** When the counters of all verified images lie in a half-circle window,
      load selects the newest one (the first in pool order among equals):
      the wraparound test then behaves like "highest generation wins". */
  lemma SelectNewest(images: seq<seq<uint8>>, usable: nat, offset: nat, base: uint8, i: nat)
    requires forall j :: 0 <= j < |images| && CrcValid(images[j], usable, offset) ==>
      Ahead(base, Counter(images[j], offset)) < 128
    requires i < |images| && CrcValid(images[i], usable, offset)
    ensures Ahead(base, Counter(images[i], offset)) <= Ahead(base, Select(images, usable, offset).value)
    ensures i < Select(images, usable, offset).index ==>
      Ahead(base, Counter(images[i], offset)) < Ahead(base, Select(images, usable, offset).value)
  {
    var c := Candidates(images, |images|, usable, offset);
    CandidatesComplete(images, |images|, usable, offset, i);
    CandidatesSound(images, |images|, usable, offset);
    ReduceNewest(c, base);
  }

  /** Load after commit: an image stamped by commit with its checksum and a
      counter strictly newer, within the window, than every other verified
      image is the one load selects. */
  lemma LoadFindsCommittedImage(images: seq<seq<uint8>>, usable: nat, offset: nat, base: uint8,
                                w: nat, buf: seq<uint8>, counter: uint8)
    requires w < |images| && offset + HeaderSize <= |buf|
    requires images[w] == Stamp(buf, offset, Checksum(buf, usable, offset), counter)
    requires Ahead(base, counter) < 128
    requires forall j :: 0 <= j < |images| && j != w && CrcValid(images[j], usable, offset) ==>
      Ahead(base, Counter(images[j], offset)) < Ahead(base, counter)
    ensures Select(images, usable, offset) == Choice(w, counter)
  {
    StampRoundTrip(buf, usable, offset, counter);
    SelectIsVerified(images, usable, offset, w);
    SelectNewest(images, usable, offset, base, w);
  }
}
