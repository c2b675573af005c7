/** When one call of cache_video_data ends, as long as nobody takes a frame meanwhile: the loop goes
    on while a queue is not full, whether or not the last round has brought anything. */
module CacheLoop {

  /** What a round brings when it is asked: the frames pushed to each queue in round k. A round that
      brings no video has met the end of the source. */
  datatype Source = Source(video: nat -> nat, audio: nat -> nat)

  datatype Status = Going(v: nat, a: nat) | Full | Eof

  function Round(s: Source, hasVideo: bool, n: nat, k: nat, v: nat, a: nat): Status {
    if hasVideo && v < n && s.video(k) == 0 then Eof
    else if !hasVideo && a < n && s.audio(k) == 0 then Eof
    else if (hasVideo && v < n) || a < n then
      Going(if hasVideo && v < n then v + s.video(k) else v, if a < n then a + s.audio(k) else a)
    else Full
  }

  /** After k rounds. */
  function Rounds(s: Source, hasVideo: bool, n: nat, v0: nat, a0: nat, k: nat): Status {
    if k == 0 then Going(v0, a0)
    else
      var t := Rounds(s, hasVideo, n, v0, a0, k - 1);
      if t.Going? then Round(s, hasVideo, n, k - 1, t.v, t.a) else t
  }

  ghost predicate Ends(s: Source, hasVideo: bool, n: nat, v0: nat, a0: nat) {
    exists k: nat :: !Rounds(s, hasVideo, n, v0, a0, k).Going?
  }

  function Sum(f: nat -> nat, k: nat): nat {
    if k == 0 then 0 else Sum(f, k - 1) + f(k - 1)
  }

  /** The source's video ends before the video queue is full. */
  ghost predicate VideoEnds(s: Source, n: nat, v0: nat) {
    exists k: nat :: v0 + Sum(s.video, k) < n && s.video(k) == 0
  }

  /** There is enough audio to fill the audio queue. */
  ghost predicate AudioFills(s: Source, n: nat, a0: nat) {
    exists k: nat :: a0 + Sum(s.audio, k) >= n
  }

  /** While the call goes on, a queue that is not full holds all it was brought. */
  lemma {:induction false} Track(s: Source, hasVideo: bool, n: nat, v0: nat, a0: nat, k: nat)
    ensures var t := Rounds(s, hasVideo, n, v0, a0, k);
            t.Going? ==>
              && (hasVideo && t.v < n ==> t.v == v0 + Sum(s.video, k))
              && (if t.a < n then t.a == a0 + Sum(s.audio, k) else AudioFills(s, n, a0))
  {
    if k > 0 {
      Track(s, hasVideo, n, v0, a0, k - 1);
      var t, u := Rounds(s, hasVideo, n, v0, a0, k), Rounds(s, hasVideo, n, v0, a0, k - 1);
      if t.Going? && t.a >= n > u.a {
        assert a0 + Sum(s.audio, k) >= n;
      }
    } else if a0 >= n {
      assert a0 + Sum(s.audio, 0) >= n;
    }
  }

  lemma {:induction false} EndedEarlier(s: Source, hasVideo: bool, n: nat, v0: nat, a0: nat, j: nat, k: nat)
    requires j <= k && Rounds(s, hasVideo, n, v0, a0, k).Going?
    ensures Rounds(s, hasVideo, n, v0, a0, j).Going?
    decreases k
  {
    if j < k {
      EndedEarlier(s, hasVideo, n, v0, a0, j, k - 1);
    }
  }

  lemma {:induction false} SumGrows(f: nat -> nat, j: nat, k: nat)
    requires j <= k
    ensures Sum(f, j) <= Sum(f, k)
    decreases k
  {
    if j < k {
      SumGrows(f, j, k - 1);
    }
  }

  /** Each round that goes on fills the video queue by at least one frame. */
  lemma {:induction false} VideoGrows(s: Source, n: nat, v0: nat, a0: nat, k: nat)
    ensures var t := Rounds(s, true, n, v0, a0, k); t.Going? ==> t.v >= k || t.v >= n
  {
    if k > 0 {
      VideoGrows(s, n, v0, a0, k - 1);
    }
  }

  /** With video the call ends if and only if the video ends before its queue is full or there is
      audio enough: a full video queue and no more audio keep it going until the consumer comes. */
  lemma WithVideoEndsIff(s: Source, n: nat, v0: nat, a0: nat)
    ensures Ends(s, true, n, v0, a0) <==> VideoEnds(s, n, v0) || AudioFills(s, n, a0)
  {
    if Ends(s, true, n, v0, a0) {
      var k: nat :| !Rounds(s, true, n, v0, a0, k).Going?;
      EndedFor(s, n, v0, a0, k);
    }
    if VideoEnds(s, n, v0) {
      var k: nat :| v0 + Sum(s.video, k) < n && s.video(k) == 0;
      EofThere(s, n, v0, a0, k);
    }
    if AudioFills(s, n, a0) {
      var k: nat :| a0 + Sum(s.audio, k) >= n;
      var m := if k > n then k else n;
      FullThen(s, n, v0, a0, k, m);
    }
  }

  lemma {:induction false} EndedFor(s: Source, n: nat, v0: nat, a0: nat, k: nat)
    requires !Rounds(s, true, n, v0, a0, k).Going?
    ensures VideoEnds(s, n, v0) || AudioFills(s, n, a0)
  {
    if k > 0 {
      if Rounds(s, true, n, v0, a0, k - 1).Going? {
        Track(s, true, n, v0, a0, k - 1);
      } else {
        EndedFor(s, n, v0, a0, k - 1);
      }
    }
  }

  lemma EofThere(s: Source, n: nat, v0: nat, a0: nat, k: nat)
    requires v0 + Sum(s.video, k) < n && s.video(k) == 0
    ensures Ends(s, true, n, v0, a0)
  {
    var t := Rounds(s, true, n, v0, a0, k);
    if t.Going? {
      VideoTotal(s, n, v0, a0, k);
      assert Rounds(s, true, n, v0, a0, k + 1) == Eof;
    }
  }

  lemma {:induction false} VideoTotal(s: Source, n: nat, v0: nat, a0: nat, k: nat)
    ensures var t := Rounds(s, true, n, v0, a0, k); t.Going? ==> t.v <= v0 + Sum(s.video, k)
  {
    if k > 0 {
      VideoTotal(s, n, v0, a0, k - 1);
    }
  }

  lemma FullThen(s: Source, n: nat, v0: nat, a0: nat, k: nat, m: nat)
    requires a0 + Sum(s.audio, k) >= n && m >= k && m >= n
    ensures Ends(s, true, n, v0, a0)
  {
    var t := Rounds(s, true, n, v0, a0, m);
    if t.Going? {
      VideoGrows(s, n, v0, a0, m);
      Track(s, true, n, v0, a0, m);
      SumGrows(s.audio, k, m);
      assert Rounds(s, true, n, v0, a0, m + 1) == Full;
    }
  }

  /** Without video every call ends: a round that brings nothing is the end of the source. */
  lemma WithoutVideoEnds(s: Source, n: nat, v0: nat, a0: nat)
    ensures Ends(s, false, n, v0, a0)
  {
    var t := Rounds(s, false, n, v0, a0, n);
    if t.Going? {
      AudioGrows(s, n, v0, a0, n);
      assert Rounds(s, false, n, v0, a0, n + 1) == Full;
    }
  }

  lemma {:induction false} AudioGrows(s: Source, n: nat, v0: nat, a0: nat, k: nat)
    ensures var t := Rounds(s, false, n, v0, a0, k); t.Going? ==> t.a >= k || t.a >= n
  {
    if k > 0 {
      AudioGrows(s, n, v0, a0, k - 1);
    }
  }

  /** A source with video for ever and no audio: the call never ends. */
  lemma DryAudioSpins(n: nat)
    requires n > 0
    ensures !Ends(Source(_ => 1, _ => 0), true, n, 0, 0)
  {
    var s := Source(_ => 1, _ => 0);
    forall k: nat ensures 0 + Sum(s.audio, k) < n {
      NoAudio(s.audio, k);
    }
    WithVideoEndsIff(s, n, 0, 0);
  }

  lemma {:induction false} NoAudio(f: nat -> nat, k: nat)
    requires forall j: nat :: f(j) == 0
    ensures Sum(f, k) == 0
  {
    if k > 0 {
      NoAudio(f, k - 1);
    }
  }
}
