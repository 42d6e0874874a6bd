/** Optional values, the fatal conditions of the deployment tool, and results
    that carry either a value or one of those conditions. */
module Wrappers {

  datatype Option<+T> = None | Some(value: T)

  /** Every condition on which the tool stops the run. The messages the tool
      prints are not modelled, only which condition was hit. */
  datatype Error =
    | UnexpectedNetworkType(network: string)  // neither a number nor a vmbr name (Python ends the run with a NameError)
    | MissingNetwork(network: string)         // the operator declined to create a missing bridge
    | NoTemplateName(vm: string)              // the VM entry names no template
    | TemplateNotFound(template: string)      // no VM on the host carries the template's name
    | VmAlreadyExists(vm: string, vmid: int)  // collision without --force-delete
    | NamesDoNotMatch(oldName: string)        // collision with --force-delete, but another VM sits there
    | DeploymentNotFound(deployment: string)  // --remove for a deployment the host never saw
    | NoSuchVm(vmid: int)                     // the API's ResourceException for an unknown VM
    | CloneRejected(templateId: int, vmid: int) // the API refuses a clone
    | MissingVmid                             // the KeyError of deleting an absent 'vmid' option
    | FormatError                             // str.format rejects the serial template
    | NotAscii                                // the rendered serial is not ASCII
    | EndOfInput                              // input() hit the end of the console input
    | BadRange                                // range(*ints) with the wrong arity or a zero step

  datatype Result<+T> = Ok(value: T) | Err(error: Error) {

    predicate IsFailure() {
      Err?
    }

    function PropagateFailure<U>(): Result<U>
      requires Err?
    {
      Err(error)
    }

    function Extract(): T
      requires Ok?
    {
      value
    }
  }
}
