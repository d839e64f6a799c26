/** Media types shared by the packetizer, the jitter buffer and the router. */
module Media {
  import opened Common

  datatype MediaKind = Video | Audio

  datatype VideoCodec = H264 | UnknownVideo

  datatype AudioCodec = Opus | UnknownAudio

  /** Compressed media: one H.264 access unit in Annex-B form, or one Opus packet. */
  datatype EncodedFrame = EncodedFrame(
    kind: MediaKind,
    videoCodec: VideoCodec,
    audioCodec: AudioCodec,
    keyframe: bool,
    rtpTimestamp: u32,
    payload: seq<u8>)
}
