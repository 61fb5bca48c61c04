/** Acquisition of the user's microphone track. One pass walks the remote
    participants and, for each, its track publications, remembering an
    audio track when it finds one. The `break` on finding it leaves only the
    publications of that participant, so a later participant's audio track
    replaces an earlier one: the pass settles on the first audio publication
    of the LAST participant that has one. A pass that finds nothing is
    repeated, one second later, until one does. */
module TrackAcquisition {
  import opened Wrappers

  datatype TrackKind = KindUnknown | KindAudio | KindVideo

  datatype Track = Track(sid: string, kind: TrackKind)

  /** A track publication; its track is absent while not available. */
  datatype TrackPublication = TrackPublication(track: Option<Track>)

  /** The room as one pass sees it: the remote participants in iteration
      order, each given by its publications in iteration order. */
  type Room = seq<seq<TrackPublication>>

  /** `pub.track and pub.track.kind == KIND_AUDIO`: a publication whose
      track is not available is never taken, whatever its kind. */
  predicate IsAudio(pub: TrackPublication)
    ensures IsAudio(pub) ==> pub.track.Some?
  {
    pub.track.Some? && pub.track.value.kind == KindAudio
  }

  predicate RoomHasAudio(room: Room) {
    exists p, k :: 0 <= p < |room| && 0 <= k < |room[p]| && IsAudio(room[p][k])
  }

  /** Position of the first audio publication, `|pubs|` when there is none. */
  function FirstAudio(pubs: seq<TrackPublication>): (k: nat)
    ensures k <= |pubs|
    ensures k < |pubs| ==> IsAudio(pubs[k])
    ensures forall j :: 0 <= j < k ==> !IsAudio(pubs[j])
    decreases |pubs|
  {
    if pubs == [] then 0
    else if IsAudio(pubs[0]) then 0
    else
      var k := 1 + FirstAudio(pubs[1..]);
      assert forall j :: 1 <= j < k ==> pubs[j] == pubs[1..][j - 1];
      k
  }

  predicate HasAudio(pubs: seq<TrackPublication>) {
    FirstAudio(pubs) < |pubs|
  }

  /** Position of the last participant with an audio publication, -1 when
      there is none. */
  function LastWithAudio(room: Room): (p: int)
    ensures -1 <= p < |room|
    ensures p >= 0 ==> HasAudio(room[p])
    ensures forall q :: p < q < |room| ==> !HasAudio(room[q])
    decreases |room|
  {
    if room == [] then -1
    else
      var last := |room| - 1;
      if HasAudio(room[last]) then last
      else
        var init := room[..last];
        assert forall q :: 0 <= q < last ==> init[q] == room[q];
        LastWithAudio(init)
  }

  /** The track one pass settles on: the first audio publication of the last
      participant that has one. A pass finds a track exactly when the room
      holds an audio publication, and what it finds is an audio track. */
  function SelectedTrack(room: Room): (track: Option<Track>)
    ensures track.Some? <==> RoomHasAudio(room)
    ensures track.Some? ==> track.value.kind == KindAudio
  {
    var p := LastWithAudio(room);
    assert forall q, k :: 0 <= q < |room| && 0 <= k < |room[q]| && IsAudio(room[q][k]) ==> HasAudio(room[q]);
    if p < 0 then None else room[p][FirstAudio(room[p])].track
  }

  /** Adding a participant: it takes over when it has an audio publication. */
  lemma SelectedTrackStep(room: Room, i: nat)
    requires i < |room|
    ensures SelectedTrack(room[..i + 1]) ==
              if HasAudio(room[i]) then room[i][FirstAudio(room[i])].track else SelectedTrack(room[..i])
  {
    var prefix := room[..i + 1];
    assert prefix[i] == room[i];
    assert prefix[..i] == room[..i];
    var p := LastWithAudio(room[..i]);
    if p >= 0 {
      assert room[..i][p] == room[p];
    }
  }

  /** One pass of the scan, with the loops and the `break` of the source. */
  method ScanRoom(room: Room) returns (track: Option<Track>)
    ensures track == SelectedTrack(room)
    ensures track.Some? <==> RoomHasAudio(room)
    ensures track.Some? ==> track.value.kind == KindAudio
  {
    track := None;
    var i := 0;
    while i < |room|
      invariant 0 <= i <= |room|
      invariant track == SelectedTrack(room[..i])
    {
      SelectedTrackStep(room, i);
      var pubs := room[i];
      var j := 0;
      while j < |pubs|
        invariant 0 <= j <= |pubs|
        invariant forall m :: 0 <= m < j ==> !IsAudio(pubs[m])
        invariant track == SelectedTrack(room[..i])
      {
        if IsAudio(pubs[j]) {
          assert FirstAudio(pubs) == j;
          track := pubs[j].track;
          break;
        }
        j := j + 1;
      }
      if j == |pubs| {
        assert !HasAudio(pubs);
      }
      i := i + 1;
    }
    assert room[..|room|] == room;
  }

  /** The repeated scan over successive states of the room, one per poll.
      It stops at the first poll whose room holds an audio publication and
      returns what that pass found; with no such poll it runs out of polls
      still waiting. */
  method AcquireTrack(polls: seq<Room>) returns (track: Option<Track>, attempts: nat)
    ensures attempts <= |polls|
    ensures forall k :: 0 <= k < attempts - 1 ==> !RoomHasAudio(polls[k])
    ensures track.Some? ==> 1 <= attempts && RoomHasAudio(polls[attempts - 1])
                            && track == SelectedTrack(polls[attempts - 1])
    ensures track.None? ==> attempts == |polls| && forall k :: 0 <= k < |polls| ==> !RoomHasAudio(polls[k])
  {
    track := None;
    attempts := 0;
    while track.None? && attempts < |polls|
      invariant attempts <= |polls|
      invariant forall k :: 0 <= k < attempts - 1 ==> !RoomHasAudio(polls[k])
      invariant track.None? ==> forall k :: 0 <= k < attempts ==> !RoomHasAudio(polls[k])
      invariant track.Some? ==> 1 <= attempts && RoomHasAudio(polls[attempts - 1])
                                && track == SelectedTrack(polls[attempts - 1])
    {
      track := ScanRoom(polls[attempts]);
      attempts := attempts + 1;
    }
  }

  /** Two participants each publishing audio: the second one's track is the
      one selected, not the first one found. */
  lemma LaterParticipantWins(first: Track, second: Track)
    requires first.kind == KindAudio && second.kind == KindAudio
    ensures SelectedTrack([[TrackPublication(Some(first))], [TrackPublication(Some(second))]]) == Some(second)
  {
    var room := [[TrackPublication(Some(first))], [TrackPublication(Some(second))]];
    assert HasAudio(room[1]);
  }
}
