/** The in-process transport: two queues and a closed flag behind one lock. */
module Transport {
  import opened Common

  /** The state behind the lock. */
  datatype Channel = Channel(toServer: seq<string>, toClient: seq<string>, closed: bool) {
    function Queue(client: bool): seq<string> {
      if client then toClient else toServer
    }
  }

  /** What the sender finds in the channel after a send. */
  function Sent(c: Channel, client: bool, message: string): Channel {
    if c.closed then c
    else if client then c.(toServer := c.toServer + [message])
    else c.(toClient := c.toClient + [message])
  }

  function SendResult(c: Channel): Result<()> {
    if c.closed then Failure(NotConnected) else Success(())
  }

  function Received(c: Channel, client: bool): Channel {
    if c.Queue(client) == [] then c
    else if client then c.(toClient := c.toClient[1..])
    else c.(toServer := c.toServer[1..])
  }

  /** What a receive that has waited returns: a queued message even when the channel is closed. */
  function ReceiveResult(c: Channel, client: bool): Result<string> {
    if c.Queue(client) != [] then Success(c.Queue(client)[0])
    else Failure(if c.closed then NotConnected else Timeout)
  }

  class TransportPair {
    var clientToServer: seq<string>
    var serverToClient: seq<string>
    var isClosed: bool

    ghost function View(): Channel
      reads this
    {
      Channel(clientToServer, serverToClient, isClosed)
    }

    constructor ()
      ensures View() == Channel([], [], false)
    {
      clientToServer, serverToClient, isClosed := [], [], false;
    }

    method Close()
      modifies this
      ensures View() == old(View()).(closed := true)
    {
      isClosed := true;
    }
  }

  /** One end of a pair; without a pair it is detached. Each method holds the pair's lock from start to end. */
  class InProcTransport {
    const pair: TransportPair?
    const clientSide: bool

    constructor (pair: TransportPair?, clientSide: bool)
      ensures this.pair == pair && this.clientSide == clientSide
    {
      this.pair, this.clientSide := pair, clientSide;
    }

    method Send(json: string) returns (r: Result<()>)
      modifies pair
      ensures pair == null ==> r == Failure(NotConnected)
      ensures pair != null ==> r == SendResult(old(pair.View())) && pair.View() == Sent(old(pair.View()), clientSide, json)
    {
      if pair == null {
        return Failure(NotConnected);
      }
      if pair.isClosed {
        return Failure(NotConnected);
      }
      if clientSide {
        pair.clientToServer := pair.clientToServer + [json];
      } else {
        pair.serverToClient := pair.serverToClient + [json];
      }
      return Success(());
    }

    /** From the moment the wait is over: a message has come, the pair is closed, or time is up. */
    method Receive() returns (r: Result<string>)
      modifies pair
      ensures pair == null ==> r == Failure(NotConnected)
      ensures pair != null ==> r == ReceiveResult(old(pair.View()), clientSide) && pair.View() == Received(old(pair.View()), clientSide)
    {
      if pair == null {
        return Failure(NotConnected);
      }
      var queue := if clientSide then pair.serverToClient else pair.clientToServer;
      if queue == [] {
        return Failure(if pair.isClosed then NotConnected else Timeout);
      }
      if clientSide {
        pair.serverToClient := queue[1..];
      } else {
        pair.clientToServer := queue[1..];
      }
      return Success(queue[0]);
    }

    method Close()
      modifies pair
      ensures pair != null ==> pair.View() == old(pair.View()).(closed := true)
    {
      if pair != null {
        pair.Close();
      }
    }
  }
}
