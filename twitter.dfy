/**
 The Twitter publisher of wayback: an adapter that holds an optional API
 client, fixed when it is built, and forwards rendered text to the client's
 status-update call when publishing is enabled.
 */
module Publish {
  import opened Wrappers
  import opened KeyOrder
  import opened Template

  /** The settings the adapter reads from wayback's configuration. */
  datatype Options = Options(
    publishToTwitter: bool,
    twitterConsumerKey: string,
    twitterConsumerSecret: string,
    twitterAccessToken: string,
    twitterAccessSecret: string)

  /** The OAuth1 consumer key and secret and access token and secret a client signs with. */
  datatype Credentials = Credentials(consumerKey: string, consumerSecret: string, token: string, tokenSecret: string)

  /**
   An authenticated API client. The network is not modelled: the ghost
   trace `updates` records the text of every status-update call made on it.
   */
  class Client {
    const credentials: Credentials
    ghost var updates: seq<string>

    constructor (credentials: Credentials)
      ensures this.credentials == credentials && updates == []
    {
      this.credentials := credentials;
      updates := [];
    }

    /** Posts text as a new status; whether the call fails is up to the network. */
    method Update(text: string) returns (failed: bool)
      modifies this
      ensures updates == old(updates) + [text]
    {
      updates := updates + [text];
      failed :| true;
    }
  }

  class Twitter {
    /** The client, or null when publishing was disabled at construction. */
    const client: Client?

    /**
     NewTwitter: disabled publishing yields an adapter without a client;
     otherwise the supplied client is kept, or a fresh one is built from the
     configured OAuth1 credentials when none is supplied.
     */
    constructor (client: Client?, opts: Options)
      ensures !opts.publishToTwitter ==> this.client == null
      ensures opts.publishToTwitter && client != null ==> this.client == client
      ensures opts.publishToTwitter && client == null ==>
        this.client != null && fresh(this.client) &&
        this.client.credentials == Credentials(opts.twitterConsumerKey, opts.twitterConsumerSecret,
                                               opts.twitterAccessToken, opts.twitterAccessSecret) &&
        this.client.updates == []
    {
      if !opts.publishToTwitter {
        this.client := null;
      } else if client == null {
        this.client := new Client(Credentials(opts.twitterConsumerKey, opts.twitterConsumerSecret,
                                              opts.twitterAccessToken, opts.twitterAccessSecret));
      } else {
        this.client := client;
      }
    }

    /**
     Publishes text when publishing is enabled and a client is held: exactly
     one update call with text unchanged, and true whatever its outcome.
     Otherwise false, with no call.
     */
    method ToTwitter(opts: Options, text: string) returns (published: bool)
      modifies client
      ensures published <==> opts.publishToTwitter && client != null
      ensures client != null ==>
        client.updates == if published then old(client.updates) + [text] else old(client.updates)
    {
      if !opts.publishToTwitter || client == null {
        return false;
      }
      var failed := client.Update(text);
      return true;
    }

    /**
     Expands the message template over vars: the outer range writes one block
     per record, and a nil record makes execution fail, which yields "".
     */
    method Render(vars: seq<Option<Collect>>) returns (text: string)
      ensures text == Message(vars)
    {
      var buf := "";
      var i := 0;
      while i < |vars|
        invariant i <= |vars|
        invariant Execute(vars[..i]) == Some(buf)
      {
        if vars[i].None? {
          return "";
        }
        var block := RenderBlock(vars[i].value);
        ExecutePrefix(vars, i, buf);
        buf := buf + block;
        i := i + 1;
      }
      assert vars[..i] == vars;
      text := buf;
    }
  }

  /**
   The inner range of the template: the label line, then one bullet per Dst
   entry taken in ascending key order, then the blank line.
   */
  method RenderBlock(c: Collect) returns (block: string)
    ensures block == Block(c)
  {
    block := c.arc + ":\n";
    var remaining := c.dst.Keys;
    while remaining != {}
      invariant remaining <= c.dst.Keys
      invariant block + Bullets(c.dst, SortedOf(remaining)) == c.arc + ":\n" + Bullets(c.dst, SortedOf(c.dst.Keys))
      decreases remaining
    {
      // witness that a least remaining key exists, for the choice below
      ghost var least := MinOf(remaining);
      var src :| src in remaining && forall x :: x in remaining && x != src ==> LexLess(src, x);
      BulletsLeast(block, c.dst, remaining, src);
      block := block + Bullet + c.dst[src] + "\n";
      remaining := remaining - {src};
    }
    block := block + "\n";
  }

  /** An adapter built with publishing disabled never posts, whatever the later settings. */
  method DisabledNeverPosts(supplied: Client?, opts: Options, later: Options, text: string) returns (published: bool)
    requires !opts.publishToTwitter
    ensures !published
    ensures supplied != null ==> supplied.updates == old(supplied.updates)
  {
    var t := new Twitter(supplied, opts);
    published := t.ToTwitter(later, text);
  }

  /** An adapter built with publishing enabled posts through the client it was given. */
  method SuppliedClientPosts(supplied: Client, opts: Options, text: string) returns (published: bool)
    requires opts.publishToTwitter
    modifies supplied
    ensures published
    ensures supplied.updates == old(supplied.updates) + [text]
  {
    var t := new Twitter(supplied, opts);
    published := t.ToTwitter(opts, text);
  }
}
