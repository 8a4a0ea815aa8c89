/** One line of the denormalised student_data.csv that both ingestion exercises read:
    the student, the teacher and the course (with its schedule and room) of one enrollment. */
module StudentData {

  datatype CsvRow = CsvRow(
    studentName: string,
    studentEmail: string,
    teacherName: string,
    teacherEmail: string,
    courseName: string,
    courseCode: string,
    courseSchedule: string,
    courseLocation: string)
}
