/** The wire "encryption" both programs apply to message text: reversal. */
module Codec {
  import opened Wrappers
  import opened JavaString

  const CRLF: string := "\r\n"

  /** `encryptMessage`, identical in the client and the server. */
  function Encrypt(message: string): string {
    Reverse(message)
  }

  /** `Server.decryptMessage`. */
  function Decrypt(wire: string): string {
    Reverse(wire)
  }

  /** Decryption undoes encryption. */
  lemma DecryptEncrypt(message: string)
    ensures Decrypt(Encrypt(message)) == message
  {
    ReverseInvolution(message);
  }

  /** Encryption is an involution, so it also undoes decryption. */
  lemma EncryptDecrypt(wire: string)
    ensures Encrypt(Decrypt(wire)) == wire
    ensures Encrypt(Encrypt(wire)) == wire
  {
    ReverseInvolution(wire);
  }

  /** Both transforms keep the length and move character `i` to `|m| - 1 - i`,
      so they add and drop no line breaks. */
  lemma EncryptKeepsCharacters(message: string)
    ensures |Encrypt(message)| == |message| && |Decrypt(message)| == |message|
    ensures NoLineBreak(message) ==> NoLineBreak(Encrypt(message))
    ensures NoLineBreak(message) ==> NoLineBreak(Decrypt(message))
  {
    var e, d := Encrypt(message), Decrypt(message);
    if NoLineBreak(message) {
      forall i | 0 <= i < |e| ensures e[i] != '\n' && e[i] != '\r' {
        assert e[i] == message[|message| - 1 - i];
      }
      forall i | 0 <= i < |d| ensures d[i] != '\n' && d[i] != '\r' {
        assert d[i] == message[|message| - 1 - i];
      }
    }
  }

  /** `Client.sendMessage`: the encrypted text, CRLF-terminated. */
  function Frame(message: string): string {
    Encrypt(message) + CRLF
  }

  /** The server's `readLine` of a client frame, followed by `decryptMessage`,
      recovers the text the user typed, and leaves the following frames alone. */
  lemma {:induction false} FrameRoundTrip(message: string, rest: string)
    requires NoLineBreak(message)
    ensures ReadLine(Frame(message) + rest) == Some((Encrypt(message), rest))
    ensures Decrypt(Encrypt(message)) == message
  {
    EncryptKeepsCharacters(message);
    ReadLineCrlf(Encrypt(message), rest);
    assert Frame(message) + rest == Encrypt(message) + "\r\n" + rest;
    DecryptEncrypt(message);
  }
}
