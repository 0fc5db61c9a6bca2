/** The traits coupling kernel and board code: the driver lifecycle result,
    and the defaults a console or driver gets when it does not override them. */
module Interface {
  import opened Results

  /** `driver::Result`: success or a failure that carries nothing. */
  type DriverResult = Result<(), ()>

  /** `DeviceDriver::init` default: a driver with no hardware setup succeeds. */
  function DefaultInit(): (r: DriverResult)
    ensures r.Ok?
  {
    Ok(())
  }

  /** `console::Read::read_char` default: a console that cannot read yields a space. */
  function DefaultReadChar(): (c: char)
    ensures c == ' '
  {
    ' '
  }

  /** `Statistics::chars_written` default: nothing is counted. */
  function DefaultCharsWritten(): (n: nat)
    ensures n == 0
  {
    0
  }

  /** `Statistics::chars_read` default: nothing is counted. */
  function DefaultCharsRead(): (n: nat)
    ensures n == 0
  {
    0
  }
}
