/** The return value of the file and stream operations rb_read_file,
    rb_write_file, rb_fread and rb_fwrite: the number of bytes copied on
    success, and -(bytes copied + 1) on error, so that a failure still tells
    the caller how far the transfer got. */
module FileStatus {

  /** The status a transfer of `copied` bytes reports. */
  function Status(copied: nat, failed: bool): (r: int)
    ensures failed <==> r < 0
    ensures Copied(r) == copied
  {
    if failed then -(copied + 1) else copied
  }

  /** How many bytes a status says were copied, whether or not it failed. */
  function Copied(r: int): nat {
    if r < 0 then -r - 1 else r
  }

  /** Every integer is the status of exactly one outcome. */
  lemma StatusOfCopied(r: int)
    ensures Status(Copied(r), r < 0) == r
  {
  }
}
