/** The ventilation unit's parameter catalogue: symbolic item names and their item addresses
    (page 0 only). The enum is declared twice in the repository with the same values. */
module ItemAddresses {
  import opened Wrappers

  datatype ItemAddress =
    | OnOff
    | SpeedMode
    | MaxSpeed
    | Boost
    | Timer
    | TimerSpeed
    | TimerSetpointMinutes
    | TimerSetpointHours
    | TimerCountdown
    | TimerTemperatureSetpoint
    | BoostSwitchEnabled
    | FireAlarmEnabled
    | RoomTemperatureSetpoint
    | RoomTemperatureSensorSelection
    | RoomTemperatureActual
    | TemperatureOutsideIntake
    | TemperatureInsideExhaust
    | TemperatureInsideIntake
    | TemperatureOutsideExhaust
    | BoostSwitchStatus
    | FireAlarmStatus
    | MinimumFanSpeedSupply
    | MinimumFanSpeedExtract
    | SupplySpeed1
    | ExtractSpeed1
    | SupplySpeed2
    | ExtractSpeed2
    | SupplySpeed3
    | ExtractSpeed3
    | SupplySpeed4
    | ExtractSpeed4
    | SupplySpeed5
    | ExtractSpeed5
    | DefrostSpeed
    | SupplySpeedBoost
    | ExtractSpeedBoost
    | HeaterEnabled
    | FilterTimerDays
    | FilterCountdown
    | ResetFilterCountdown
    | BoostTurnOnDelay
    | BoostTurnOffDelay
    | TemperatureControlEnabled
    | TemperatureTE5
    | RTCTime
    | RTCDate
    | WeeklyScheduleEnabled
    | WeeklyScheduleSpeed
    | WeeklyScheduleTemperatureSetpoint
    | ScheduleSetup
    | MotorHours

  /** The numeric address of an item. */
  function Code(a: ItemAddress): nat
  {
    match a
    case OnOff => 1
    case SpeedMode => 2
    case MaxSpeed => 3
    case Boost => 6
    case Timer => 7
    case TimerSpeed => 8
    case TimerSetpointMinutes => 9
    case TimerSetpointHours => 10
    case TimerCountdown => 11
    case TimerTemperatureSetpoint => 13
    case BoostSwitchEnabled => 20
    case FireAlarmEnabled => 21
    case RoomTemperatureSetpoint => 24
    case RoomTemperatureSensorSelection => 29
    case RoomTemperatureActual => 30
    case TemperatureOutsideIntake => 31
    case TemperatureInsideExhaust => 32
    case TemperatureInsideIntake => 33
    case TemperatureOutsideExhaust => 34
    case BoostSwitchStatus => 50
    case FireAlarmStatus => 51
    case MinimumFanSpeedSupply => 54
    case MinimumFanSpeedExtract => 55
    case SupplySpeed1 => 58
    case ExtractSpeed1 => 59
    case SupplySpeed2 => 60
    case ExtractSpeed2 => 61
    case SupplySpeed3 => 62
    case ExtractSpeed3 => 63
    case SupplySpeed4 => 64
    case ExtractSpeed4 => 65
    case SupplySpeed5 => 66
    case ExtractSpeed5 => 67
    case DefrostSpeed => 69
    case SupplySpeedBoost => 70
    case ExtractSpeedBoost => 71
    case HeaterEnabled => 96
    case FilterTimerDays => 99
    case FilterCountdown => 100
    case ResetFilterCountdown => 101
    case BoostTurnOnDelay => 102
    case BoostTurnOffDelay => 103
    case TemperatureControlEnabled => 104
    case TemperatureTE5 => 106
    case RTCTime => 111
    case RTCDate => 112
    case WeeklyScheduleEnabled => 114
    case WeeklyScheduleSpeed => 115
    case WeeklyScheduleTemperatureSetpoint => 116
    case ScheduleSetup => 119
    case MotorHours => 126
  }

  /** Reverse lookup (the enum cast `(ItemAddress)address` used when printing a decoded item);
      `None` for an address with no symbolic name. */
  function FromCode(n: nat): Option<ItemAddress>
  {
    if n == 1 then Some(OnOff)
    else if n == 2 then Some(SpeedMode)
    else if n == 3 then Some(MaxSpeed)
    else if n == 6 then Some(Boost)
    else if n == 7 then Some(Timer)
    else if n == 8 then Some(TimerSpeed)
    else if n == 9 then Some(TimerSetpointMinutes)
    else if n == 10 then Some(TimerSetpointHours)
    else if n == 11 then Some(TimerCountdown)
    else if n == 13 then Some(TimerTemperatureSetpoint)
    else if n == 20 then Some(BoostSwitchEnabled)
    else if n == 21 then Some(FireAlarmEnabled)
    else if n == 24 then Some(RoomTemperatureSetpoint)
    else if n == 29 then Some(RoomTemperatureSensorSelection)
    else if n == 30 then Some(RoomTemperatureActual)
    else if n == 31 then Some(TemperatureOutsideIntake)
    else if n == 32 then Some(TemperatureInsideExhaust)
    else if n == 33 then Some(TemperatureInsideIntake)
    else if n == 34 then Some(TemperatureOutsideExhaust)
    else if n == 50 then Some(BoostSwitchStatus)
    else if n == 51 then Some(FireAlarmStatus)
    else if n == 54 then Some(MinimumFanSpeedSupply)
    else if n == 55 then Some(MinimumFanSpeedExtract)
    else if n == 58 then Some(SupplySpeed1)
    else if n == 59 then Some(ExtractSpeed1)
    else if n == 60 then Some(SupplySpeed2)
    else if n == 61 then Some(ExtractSpeed2)
    else if n == 62 then Some(SupplySpeed3)
    else if n == 63 then Some(ExtractSpeed3)
    else if n == 64 then Some(SupplySpeed4)
    else if n == 65 then Some(ExtractSpeed4)
    else if n == 66 then Some(SupplySpeed5)
    else if n == 67 then Some(ExtractSpeed5)
    else if n == 69 then Some(DefrostSpeed)
    else if n == 70 then Some(SupplySpeedBoost)
    else if n == 71 then Some(ExtractSpeedBoost)
    else if n == 96 then Some(HeaterEnabled)
    else if n == 99 then Some(FilterTimerDays)
    else if n == 100 then Some(FilterCountdown)
    else if n == 101 then Some(ResetFilterCountdown)
    else if n == 102 then Some(BoostTurnOnDelay)
    else if n == 103 then Some(BoostTurnOffDelay)
    else if n == 104 then Some(TemperatureControlEnabled)
    else if n == 106 then Some(TemperatureTE5)
    else if n == 111 then Some(RTCTime)
    else if n == 112 then Some(RTCDate)
    else if n == 114 then Some(WeeklyScheduleEnabled)
    else if n == 115 then Some(WeeklyScheduleSpeed)
    else if n == 116 then Some(WeeklyScheduleTemperatureSetpoint)
    else if n == 119 then Some(ScheduleSetup)
    else if n == 126 then Some(MotorHours)
    else None
  }
  lemma FromCodeOfCode(a: ItemAddress)
    ensures FromCode(Code(a)) == Some(a)
  {
    if Code(a) < 30 {
      FromCodeBelow30(a);
    } else if Code(a) < 60 {
      FromCodeBelow60(a);
    } else if Code(a) < 100 {
      FromCodeBelow100(a);
    } else {
      FromCodeFrom100(a);
    }
  }

  lemma FromCodeBelow30(a: ItemAddress)
    requires Code(a) < 30
    ensures FromCode(Code(a)) == Some(a)
  {
  }

  lemma FromCodeBelow60(a: ItemAddress)
    requires 30 <= Code(a) < 60
    ensures FromCode(Code(a)) == Some(a)
  {
  }

  lemma FromCodeBelow100(a: ItemAddress)
    requires 60 <= Code(a) < 100
    ensures FromCode(Code(a)) == Some(a)
  {
  }

  lemma FromCodeFrom100(a: ItemAddress)
    requires 100 <= Code(a)
    ensures FromCode(Code(a)) == Some(a)
  {
  }

  /** No two names share an address. */
  lemma CodesDistinct(a: ItemAddress, b: ItemAddress)
    ensures Code(a) == Code(b) ==> a == b
  {
    FromCodeOfCode(a);
    FromCodeOfCode(b);
  }

  /** Every address is in 1..126: page 0, and no low byte collides with a stream control byte
      (0xFC..0xFF). */
  lemma CodesInRange(a: ItemAddress)
    ensures 1 <= Code(a) <= 126
    ensures Code(a) / 256 == 0
    ensures Code(a) % 256 !in {0xFC, 0xFD, 0xFE, 0xFF}
  {
  }

  /** The supply and extract set points of fan speed N interleave from 58 upwards. */
  function SupplySpeed(n: nat): ItemAddress
    requires 1 <= n <= 5
  {
    [SupplySpeed1, SupplySpeed2, SupplySpeed3, SupplySpeed4, SupplySpeed5][n - 1]
  }

  function ExtractSpeed(n: nat): ItemAddress
    requires 1 <= n <= 5
  {
    [ExtractSpeed1, ExtractSpeed2, ExtractSpeed3, ExtractSpeed4, ExtractSpeed5][n - 1]
  }

  lemma SpeedAddresses(n: nat)
    requires 1 <= n <= 5
    ensures Code(SupplySpeed(n)) == 56 + 2 * n
    ensures Code(ExtractSpeed(n)) == 57 + 2 * n
  {
  }

  /** The five temperature sensors sit at consecutive addresses 30..34. */
  lemma TemperatureSensorAddresses()
    ensures Code(RoomTemperatureActual) == 30
    ensures Code(TemperatureOutsideIntake) == 31
    ensures Code(TemperatureInsideExhaust) == 32
    ensures Code(TemperatureInsideIntake) == 33
    ensures Code(TemperatureOutsideExhaust) == 34
  {
  }
}
