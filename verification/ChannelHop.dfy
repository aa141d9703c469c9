// channel_hop.c: the channels hopped over and their frequencies.
module ChannelHop {
  import opened Sequences

  const CHANNELS: seq<int> := [1, 6, 11, 36, 40, 44, 48]

  function ChannelToFreq(channel: int): int {
    if 1 <= channel <= 13 then 2407 + channel * 5
    else if channel == 14 then 2484
    else if 36 <= channel <= 177 then 5000 + channel * 5
    else -1
  }

  // The centre frequencies are five megahertz apart from 2412 and from 5180 on; channel 14 stands
  // alone.
  lemma FrequenciesByBand(c: int)
    ensures 1 <= c <= 13 ==> ChannelToFreq(c) == 2412 + 5 * (c - 1)
    ensures c == 14 ==> ChannelToFreq(c) == 2484
    ensures 36 <= c <= 177 ==> ChannelToFreq(c) == 5180 + 5 * (c - 36)
    ensures c < 1 || 14 < c < 36 || 177 < c ==> ChannelToFreq(c) == -1
  {
  }

  // No two channels share a frequency.
  lemma FrequenciesDiffer(c: int, d: int)
    requires ChannelToFreq(c) != -1
    ensures ChannelToFreq(c) == ChannelToFreq(d) <==> c == d
  {
  }

  ghost predicate Hopped(freq: int) {
    exists c :: c in CHANNELS && ChannelToFreq(c) == freq
  }

  const FREQUENCIES: set<int> := {2412, 2437, 2462, 5180, 5200, 5220, 5240}

  lemma HoppedFrequency(f: int)
    ensures Hopped(f) <==> f in FREQUENCIES
  {
    forall k | 0 <= k < 7
      ensures Hopped(ChannelToFreq(CHANNELS[k]))
    {
      assert CHANNELS[k] in CHANNELS;
    }
    assert Hopped(ChannelToFreq(CHANNELS[0])) && Hopped(ChannelToFreq(CHANNELS[1]))
           && Hopped(ChannelToFreq(CHANNELS[2])) && Hopped(ChannelToFreq(CHANNELS[3]))
           && Hopped(ChannelToFreq(CHANNELS[4])) && Hopped(ChannelToFreq(CHANNELS[5]))
           && Hopped(ChannelToFreq(CHANNELS[6]));
  }

  lemma FrequencyCount()
    ensures |FREQUENCIES| == |CHANNELS|
  {
  }

  lemma SubsetCount<T>(a: set<T>, b: set<T>)
    requires a <= b
    ensures |a| <= |b| && (|a| == |b| ==> a == b)
  {
    assert b == a + (b - a);
  }

  // A list of distinct hopped frequencies has room for one more until all seven are in it.
  lemma HoppedFit(freqs: seq<int>)
    requires Distinct(freqs) && forall f | f in freqs :: Hopped(f)
    ensures |freqs| <= |CHANNELS|
    ensures |freqs| == |CHANNELS| ==> forall f | Hopped(f) :: f in freqs
  {
    DistinctCount(freqs);
    var had := set f | f in freqs;
    var all := FREQUENCIES;
    forall f | f in had
      ensures f in all
    {
      HoppedFrequency(f);
    }
    SubsetCount(had, all);
    FrequencyCount();
    if |freqs| == |CHANNELS| {
      forall f | Hopped(f)
        ensures f in freqs
      {
        HoppedFrequency(f);
        assert f in had;
      }
    }
  }

  // ---------- next_channel ----------

  // The interface and the index of the static variable `channel`.
  class Hopper {
    var channel: nat
    ghost var tuned: seq<int>  // the channels set so far

    ghost predicate Valid()
      reads this
    {
      && channel == |tuned| % |CHANNELS|
      && forall i | 0 <= i < |tuned| :: tuned[i] == CHANNELS[i % |CHANNELS|]
    }

    constructor ()
      ensures Valid() && tuned == []
    {
      channel, tuned := 0, [];
    }

    method NextChannel() returns (channelSet: int)
      requires Valid()
      modifies this
      ensures Valid() && tuned == old(tuned) + [channelSet]
    {
      channelSet := CHANNELS[channel];
      tuned := tuned + [channelSet];
      channel := (channel + 1) % |CHANNELS|;
    }
  }

  // Round robin: any seven calls in a row set every channel once.
  lemma RoundRobin(tuned: seq<int>, from: nat)
    requires forall i | 0 <= i < |tuned| :: tuned[i] == CHANNELS[i % |CHANNELS|]
    requires from + |CHANNELS| <= |tuned|
    ensures Distinct(tuned[from..from + |CHANNELS|])
    ensures forall c | c in CHANNELS :: c in tuned[from..from + |CHANNELS|]
  {
    var w := tuned[from..from + 7];
    forall i, j | 0 <= i < j < 7
      ensures w[i] != w[j]
    {
      var a, b := (from + i) % 7, (from + j) % 7;
      assert w[i] == CHANNELS[a] && w[j] == CHANNELS[b] && a != b;
    }
    forall k | 0 <= k < 7
      ensures CHANNELS[k] in w
    {
      var i := (k - from) % 7;
      assert (from + i) % 7 == k;
      assert w[i] == CHANNELS[k];
    }
  }
}
