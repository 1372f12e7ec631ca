/** Result codes and the optional value the kernel's null pointers and negative indices stand for. */
module Status {

  datatype Status = AllOk | EInvArg | ENoMem | EBadPath

  datatype Option<+T> = None | Some(value: T)
}
