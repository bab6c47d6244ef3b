/** The ways one `--create` run can stop before a configuration is submitted. */
module Errors {

  datatype Error =
    /** A SCSI type tag none of the four controller classes answers to
        (the device variable stays unbound in `createScsiSpec`). */
    | UnsupportedScsiType(tag: string)
    /** A NIC type tag none of the three adapter classes answers to. */
    | UnsupportedNicType(tag: string)
    /** `int(text)` rejected its argument (a `ValueError`). */
    | InvalidInteger(text: string)
    /** An address that does not split into exactly four dot-separated parts. */
    | MalformedAddress(address: string)
    /** The provisioning server had no record for the machine. */
    | NoSystemRecord
    /** The record's virtualization type is not one this tool manages. */
    | UnsupportedVirtType(virtType: string)
    /** The record carries no storage path, so the VM path cannot be built. */
    | MissingVirtPath
}
