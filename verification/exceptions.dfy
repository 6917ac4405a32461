/** The exception kinds the campus reservation engine raises. Each constructor
    stands for one Java exception class of the system. */
module Exceptions {

  datatype Error =
    | InvalidInput            // InvalidInputException: blank field, wrong resource variant, removal blocked
    | InvalidTimeSlot         // InvalidTimeSlotException: day or slot outside the weekly grid
    | ResourceNotFound        // ResourceNotFoundException: unknown resource or reservation id
    | DuplicateUser           // DuplicateUserException: username already taken
    | DuplicateResource       // DuplicateResourceException: resource id already taken
    | DuplicateReservation    // DuplicateReservationException: generated id already in use
    | ReservationConflict     // ReservationConflictException: cell already actively booked
    | Unauthorized            // UnauthorizedAccessException: role or ownership check failed
    | IndexOutOfBounds        // IndexOutOfBoundsException: grid index outside 5 x 8
    | IllegalArgument         // IllegalArgumentException: rejected entity field value
}
