/** The minifilter's handling of a notification from the daemon. */
module PortNotify {
  import opened Bytes
  import opened Wrappers

  const MSG_FILE_AUTH: byte := 1
  const MSG_USB_AUTH: byte := 2

  datatype Status = Success | Unsuccessful | Volume(auth: byte, name: seq<byte>)

  /** A file context as the notification sees it; the identifier is absent until it is computed. */
  class FileContext {
    var auth: byte
    var fileId: Option<seq<byte>>

    constructor ()
      ensures auth == 0 && fileId == None
    {
      auth, fileId := 0, None;
    }
  }

  function Ids(list: seq<FileContext>): (ids: seq<Option<seq<byte>>>)
    reads list
    ensures |ids| == |list| && forall i :: 0 <= i < |list| ==> ids[i] == list[i].fileId
  {
    seq(|list|, i requires 0 <= i < |list| reads list => list[i].fileId)
  }

  /** The position of the first identifier equal to `id`, or the length of the list. */
  function FirstMatch(ids: seq<Option<seq<byte>>>, id: seq<byte>): (k: nat)
    ensures k <= |ids|
    ensures k < |ids| ==> ids[k] == Some(id)
    ensures forall i :: 0 <= i < k ==> ids[i] != Some(id)
  {
    if ids == [] || ids[0] == Some(id) then 0 else 1 + FirstMatch(ids[1..], id)
  }

  /**
   * A file message of at least 34 bytes sets the authorization of the first context with its
   * identifier and of no other; every other message leaves all contexts alone.
   */
  method Notify(list: seq<FileContext>, input: seq<byte>) returns (status: Status)
    requires forall i, j :: 0 <= i < j < |list| ==> list[i] != list[j]
    modifies list
    ensures Ids(list) == old(Ids(list))
    ensures |input| < 2 || input[0] !in {1, 2} ==> status == Unsuccessful
    ensures |input| >= 2 && input[0] == 1 ==>
              status == if |input| < 34 then Unsuccessful else Success
    ensures |input| >= 2 && input[0] == 2 ==>
              status == if |input| < 4 then Unsuccessful else Volume(input[1], input[2..])
    ensures var target := if |input| >= 34 && input[0] == 1 then FirstMatch(Ids(list), input[1..33]) else |list|;
            forall i :: 0 <= i < |list| ==> list[i].auth == if i == target then input[33] else old(list[i].auth)
  {
    if |input| < 2 {
      return Unsuccessful;
    }
    if input[0] == MSG_FILE_AUTH {
      if |input| < 34 {
        return Unsuccessful;
      }
      if list == [] {
        return Success;
      }
      ghost var first := FirstMatch(Ids(list), input[1..33]);
      for i := 0 to |list|
        invariant first >= i
        invariant Ids(list) == old(Ids(list))
        invariant forall j :: 0 <= j < |list| ==> list[j].auth == old(list[j].auth)
      {
        if list[i].fileId == Some(input[1..33]) {
          list[i].auth := input[33];
          return Success;
        }
      }
      return Success;
    } else if input[0] == MSG_USB_AUTH {
      if |input| < 4 {
        return Unsuccessful;
      }
      return Volume(input[1], input[2..]);
    }
    return Unsuccessful;
  }
}
