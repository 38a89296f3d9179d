/** The transcript segments threaded through the pipeline. */
module Segments {

  /** One unit of transcribed speech. The instants are whole milliseconds:
      the model starts after the conversion from float seconds. */
  datatype Segment = Segment(start: nat, end: nat, text: string)

  /** The texts of the segments, in order. */
  function Texts(segs: seq<Segment>): seq<string>
  {
    seq(|segs|, i requires 0 <= i < |segs| => segs[i].text)
  }
}
