/** What `waitpid` reports of a child. */
module WaitStatus {

  datatype WaitStatus = Exited(code: nat) | Signaled(signal: nat) | Strange

  /** Exit codes and signal numbers as the status macros extract them. */
  predicate Genuine(w: WaitStatus) {
    match w
    case Exited(code) => code <= 255
    case Signaled(signal) => 1 <= signal <= 127
    case Strange => true
  }

  /**
   What the status macros of <sys/wait.h> make of the number that `waitpid`
   stores: the low seven bits are zero after an exit, the signal otherwise, and
   all ones for a child that is not gone; the exit code is the next octet.
   */
  function OfWord(word: nat): WaitStatus {
    if word % 128 == 0 then Exited(word / 256 % 256)
    else if word % 128 == 127 then Strange
    else Signaled(word % 128)
  }

  lemma OfWordIsGenuine(word: nat)
    ensures Genuine(OfWord(word))
  {
  }
}
