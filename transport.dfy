/** The serial connection as the SPI driver sees it: commands go out one line
    at a time and each read takes the next reply line. Here the replies are a
    script fixed in advance, and everything that happens is logged. */
module Transport {
  import opened Results

  datatype Event = Sent(command: string) | Received(reply: Option<string>)

  class ScriptedTransport {
    /** Every command sent and every reply taken, in order. */
    var log: seq<Event>
    /** The replies not yet read. */
    var responses: seq<string>

    constructor (script: seq<string>)
      ensures log == [] && responses == script
    {
      log := [];
      responses := script;
    }

    /** `_sendCommand`. */
    method SendCommand(command: string)
      modifies this
      ensures log == old(log) + [Sent(command)]
      ensures responses == old(responses)
    {
      log := log + [Sent(command)];
    }

    /** `_readResponse`: the next scripted reply, None once the script is
        used up. */
    method ReadResponse() returns (reply: Option<string>)
      modifies this
      ensures reply == First(old(responses))
      ensures responses == Rest(old(responses))
      ensures log == old(log) + [Received(reply)]
    {
      if |responses| == 0 {
        reply := None;
      } else {
        reply := Some(responses[0]);
        responses := responses[1..];
      }
      log := log + [Received(reply)];
    }
  }
}
