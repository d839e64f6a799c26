/** The receive side of a two-party call: packets are sorted into a video and an audio
    jitter buffer, and every tick drains both into the decoders. */
module ReceivePipelining {
  import opened Common
  import opened Rtp
  import opened Media
  import opened JitterBuffering
  import opened JitterDrain

  /** The drain loop of one tick. */
  method Drain(jitter: JitterBuffer, now: int) returns (frames: seq<EncodedFrame>)
    requires jitter.Valid()
    modifies jitter
    ensures jitter.Valid()
    ensures (jitter.Current(), frames) == Drained(jitter.config, old(jitter.Current()), now)
  {
    frames := [];
    DrainStarts(jitter.config, jitter.Current(), now);
    while true
      invariant jitter.Valid() && DrainsTo(jitter.config, old(jitter.Current()), now, frames, jitter.Current())
      decreases |jitter.frames|
    {
      DrainGoesOn(jitter.config, old(jitter.Current()), now, frames, jitter.Current());
      var frame := jitter.Pop(now);
      if frame.None? { return; }
      frames := frames + [frame.value];
    }
  }

  class ReceivePipeline {
    const audioSsrc: u32
    const decodesVideo: bool
    const decodesAudio: bool
    const videoJitter: JitterBuffer
    const audioJitter: JitterBuffer?
    // Frames handed to the decoders so far.
    var video: seq<EncodedFrame>
    var audio: seq<EncodedFrame>

    ghost predicate Valid()
      reads this, videoJitter, if audioJitter == null then {} else {audioJitter}
    {
      && videoJitter.Valid()
      && (audioJitter != null ==> audioJitter.Valid() && audioJitter != videoJitter)
    }

    constructor (targetDelay: int, audioSsrc: u32, decodesVideo: bool, decodesAudio: bool)
      ensures Valid() && fresh(videoJitter) && video == [] && audio == []
      ensures audioJitter != null <==> decodesAudio && audioSsrc != 0
      ensures audioJitter != null ==> fresh(audioJitter) && audioJitter.config == Config(targetDelay, Audio, H264, Opus)
      ensures videoJitter.config == Config(targetDelay, Video, H264, Opus)
    {
      this.audioSsrc, this.decodesVideo, this.decodesAudio := audioSsrc, decodesVideo, decodesAudio;
      video, audio := [], [];
      videoJitter := new JitterBuffer(Config(targetDelay, Video, H264, Opus));
      if decodesAudio && audioSsrc != 0 {
        audioJitter := new JitterBuffer(Config(targetDelay, Audio, H264, Opus));
      } else {
        audioJitter := null;
      }
    }

    /** The buffer a packet belongs to. */
    function BufferFor(p: RtpPacket): JitterBuffer {
      if audioJitter != null && p.ssrc == audioSsrc then audioJitter else videoJitter
    }

    method PushPacket(p: RtpPacket, arrival: int)
      requires Valid() && CanPush(BufferFor(p).Current(), p.timestamp)
      modifies BufferFor(p)
      ensures Valid()
      ensures if audioJitter != null && p.ssrc == audioSsrc then
                && audioJitter.Current() == Pushed(old(audioJitter.Current()), p, arrival).0
                && videoJitter.Current() == old(videoJitter.Current())
              else
                && videoJitter.Current() == Pushed(old(videoJitter.Current()), p, arrival).0
                && (audioJitter != null ==> audioJitter.Current() == old(audioJitter.Current()))
    {
      if audioJitter != null && p.ssrc == audioSsrc {
        var _ := audioJitter.Push(p, arrival);
      } else {
        var _ := videoJitter.Push(p, arrival);
      }
    }

    /** A tick hands every ripe frame to its decoder, in timestamp order; without a
        decoder the buffer is left alone. */
    method Tick(now: int)
      requires Valid()
      modifies this`video, this`audio, videoJitter, audioJitter
      ensures Valid()
      ensures if decodesVideo
              then (videoJitter.Current(), video)
                   == (Drained(videoJitter.config, old(videoJitter.Current()), now).0,
                       old(video) + Drained(videoJitter.config, old(videoJitter.Current()), now).1)
              else videoJitter.Current() == old(videoJitter.Current()) && video == old(video)
      ensures if decodesAudio && audioJitter != null
              then (audioJitter.Current(), audio)
                   == (Drained(audioJitter.config, old(audioJitter.Current()), now).0,
                       old(audio) + Drained(audioJitter.config, old(audioJitter.Current()), now).1)
              else audio == old(audio) && (audioJitter != null ==> audioJitter.Current() == old(audioJitter.Current()))
    {
      if decodesVideo {
        var frames := Drain(videoJitter, now);
        video := video + frames;
      }
      if audioJitter != null && decodesAudio {
        var frames := Drain(audioJitter, now);
        audio := audio + frames;
      }
    }
  }
}
