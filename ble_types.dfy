/** The command codes of `Communication.BLE_COMMANDS`: the numbering the device firmware and the app share. */
module BleTypes {
  import opened Outcomes

  datatype BleCommand =
    | GetSdFilesystem
    | GetSdFile
    | SetSdFile
    | UpdateSystem
    | SendSmartfloorData
    | SetWlanCredentials
    | ResetUserData
    | SendWifiData
    | SetLedColor
    | FirmwareUpdate
    | SetVoltagePort
    | LogData
    | ErrorMessage

  /** The numeric code of a command on the wire. */
  function Code(c: BleCommand): (r: nat)
    ensures r <= 255
    ensures r == 255 <==> c == ErrorMessage
    ensures c != ErrorMessage ==> r <= 11
  {
    match c
    case GetSdFilesystem => 0
    case GetSdFile => 1
    case SetSdFile => 2
    case UpdateSystem => 3
    case SendSmartfloorData => 4
    case SetWlanCredentials => 5
    case ResetUserData => 6
    case SendWifiData => 7
    case SetLedColor => 8
    case FirmwareUpdate => 9
    case SetVoltagePort => 10
    case LogData => 11
    case ErrorMessage => 255
  }

  /** The command a code stands for, if any. */
  function FromCode(n: int): (r: Option<BleCommand>)
    ensures r.Some? ==> Code(r.value) == n
  {
    if n == 0 then Some(GetSdFilesystem)
    else if n == 1 then Some(GetSdFile)
    else if n == 2 then Some(SetSdFile)
    else if n == 3 then Some(UpdateSystem)
    else if n == 4 then Some(SendSmartfloorData)
    else if n == 5 then Some(SetWlanCredentials)
    else if n == 6 then Some(ResetUserData)
    else if n == 7 then Some(SendWifiData)
    else if n == 8 then Some(SetLedColor)
    else if n == 9 then Some(FirmwareUpdate)
    else if n == 10 then Some(SetVoltagePort)
    else if n == 11 then Some(LogData)
    else if n == 255 then Some(ErrorMessage)
    else None
  }

  /** Every command is recovered from its code, so no two commands share a code. */
  lemma FromCodeOfCode(c: BleCommand)
    ensures FromCode(Code(c)) == Some(c)
  {
  }

  lemma CodeInjective(c: BleCommand, d: BleCommand)
    ensures Code(c) == Code(d) ==> c == d
  {
    FromCodeOfCode(c);
    FromCodeOfCode(d);
  }

  /** The codes in use are exactly 0..11 and 255. */
  lemma CodesInUse(n: int)
    ensures FromCode(n).Some? <==> (0 <= n <= 11 || n == 255)
  {
  }

  /** The receiver's literal packet types 0 and 4 are the file-listing and floor-data commands. */
  lemma RouterTypes()
    ensures Code(GetSdFilesystem) == 0 && Code(SendSmartfloorData) == 4
    ensures FromCode(0) == Some(GetSdFilesystem) && FromCode(4) == Some(SendSmartfloorData)
  {
  }
}
