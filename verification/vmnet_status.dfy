/** Status codes returned by the vmnet interface calls, and their names in log messages. */
module VmnetStatus {
  import opened Types

  /** `vmnet_return_t`; any value outside the named ones is `Other`. */
  datatype Status =
    | Success
    | Failure
    | MemFailure
    | InvalidArgument
    | SetupIncomplete
    | InvalidAccess
    | PacketTooBig
    | BufferExhausted
    | TooManyPackets
    | Other(code: int)

  /** What `vmnet_strerror` prints for a status that has no name. */
  const UnknownStatus := "(unknown status)"

  /** `vmnet_strerror`: the status's own constant name, or the unknown marker. */
  function StrError(s: Status): (name: string)
    ensures name == UnknownStatus <==> s.Other?
    ensures !s.Other? ==> |name| > 6 && name[..6] == "VMNET_"
  {
    match s
    case Success => "VMNET_SUCCESS"
    case Failure => "VMNET_FAILURE"
    case MemFailure => "VMNET_MEM_FAILURE"
    case InvalidArgument => "VMNET_INVALID_ARGUMENT"
    case SetupIncomplete => "VMNET_SETUP_INCOMPLETE"
    case InvalidAccess => "VMNET_INVALID_ACCESS"
    case PacketTooBig => "VMNET_PACKET_TOO_BIG"
    case BufferExhausted => "VMNET_BUFFER_EXHAUSTED"
    case TooManyPackets => "VMNET_TOO_MANY_PACKETS"
    case Other(_) => UnknownStatus
  }

  /** The named status a log string stands for, if any. */
  function FromName(name: string): Option<Status> {
    if name == "VMNET_SUCCESS" then Some(Success)
    else if name == "VMNET_FAILURE" then Some(Failure)
    else if name == "VMNET_MEM_FAILURE" then Some(MemFailure)
    else if name == "VMNET_INVALID_ARGUMENT" then Some(InvalidArgument)
    else if name == "VMNET_SETUP_INCOMPLETE" then Some(SetupIncomplete)
    else if name == "VMNET_INVALID_ACCESS" then Some(InvalidAccess)
    else if name == "VMNET_PACKET_TOO_BIG" then Some(PacketTooBig)
    else if name == "VMNET_BUFFER_EXHAUSTED" then Some(BufferExhausted)
    else if name == "VMNET_TOO_MANY_PACKETS" then Some(TooManyPackets)
    else None
  }

  /**
   * The mapping loses nothing for named statuses: the printed name
   * identifies the status, and every unnamed status prints the same marker.
   */
  lemma StrErrorIdentifies(s: Status)
    ensures !s.Other? ==> FromName(StrError(s)) == Some(s)
    ensures s.Other? ==> FromName(StrError(s)) == None
  {
  }

  /** Two named statuses never share a printed name. */
  lemma StrErrorInjective(s: Status, t: Status)
    requires !s.Other? && StrError(s) == StrError(t)
    ensures s == t
  {
    StrErrorIdentifies(s);
    StrErrorIdentifies(t);
  }
}
