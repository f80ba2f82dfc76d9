/** What two endpoints can agree on (src/protocol/deflate/mod.rs). */
module DeflateSettings {
  import opened Bytes
  import opened Frames

  /** The compression level is not kept: it changes the tokens chosen, never their meaning. */
  datatype Settings = Settings(
    serverNoContextTakeover: bool,
    clientNoContextTakeover: bool,
    serverMaxWindowBits: nat,
    clientMaxWindowBits: nat)
  {
    /** What the builder's assertions leave. */
    predicate BuilderValid() {
      9 <= serverMaxWindowBits <= 15 && 9 <= clientMaxWindowBits <= 15
    }

    predicate WindowsAtMost15() { serverMaxWindowBits <= 15 && clientMaxWindowBits <= 15 }

    function OwnWindow(role: Role): nat {
      if role.Client? then clientMaxWindowBits else serverMaxWindowBits
    }

    function PeerWindow(role: Role): nat {
      if role.Client? then serverMaxWindowBits else clientMaxWindowBits
    }

    function OwnNoContextTakeover(role: Role): bool {
      if role.Client? then clientNoContextTakeover else serverNoContextTakeover
    }

    function PeerNoContextTakeover(role: Role): bool {
      if role.Client? then serverNoContextTakeover else clientNoContextTakeover
    }
  }
}
